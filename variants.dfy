/** How the two processors differ. The GPT variant locates the table
    literal with `find` and needs its closing `])`; the Gemini variant cuts
    it out with `split` and, without a closer, takes everything after the
    marker. The GPT guard also keeps an empty text from the model. */
module Variants {
  import opened Results
  import opened PyStrings
  import opened Pipeline
  import Dates
  import Json
  import Extraction
  import Gpt = GptProcessor
  import Gemini = GeminiProcessor
  import opened Replies

  /** Wherever the GPT variant finds a payload the Gemini variant finds the
      same one, and where the Gemini variant finds none neither does GPT. */
  lemma PayloadsAgree(text: string)
    ensures Gpt.Payload(text).Some? ==> Gemini.Payload(text) == Gpt.Payload(text)
    ensures Gemini.Payload(text).None? ==> Gpt.Payload(text).None?
  {
    Gpt.PayloadBetweenMarkers(text);
    Gemini.PayloadAfterMarker(text);
  }

  /** The two disagree exactly on a reply whose marker no closer follows. */
  lemma PayloadsDifferIff(text: string)
    ensures Gpt.Payload(text) != Gemini.Payload(text) <==>
      Contains(text, Marker) && !Contains(AfterMarker(text), Closer)
  {
    Gpt.PayloadBetweenMarkers(text);
    Gemini.PayloadAfterMarker(text);
  }

  /** The guards of `process` differ only on the empty text. */
  lemma GuardsDiffer(text: string)
    ensures Gpt.SkipsModel(text) <==> Gemini.SkipsModel(text) || text == ""
    ensures !Gemini.SkipsModel("")
  {
    assert forall i :: !IsAt("", Extraction.FailureMark, i);
  }

  /** The single-quoted literal of entries the model can write has no `]`. */
  lemma LiteralUnbracketed(events: seq<Event>)
    requires forall i :: 0 <= i < |events| ==> Writable(events[i])
    ensures ']' !in Literal(events)
  {
    BodyAvoids(events, ']');
    var s := Literal(events);
    assert forall k :: 0 <= k < |s| ==> s[k] != ']';
  }

  /** `strip()` leaves a reply cut off after its literal alone. */
  lemma TruncatedStripped(events: seq<Event>)
    ensures Strip(Marker + Literal(events)) == Marker + Literal(events)
  {
    var s := Literal(events);
    var c := Marker + s;
    LiteralBraced(events);
    VisibleNotSpace('p');
    VisibleNotSpace('}');
    VisibleNotSpace('[');
    assert c[0] == 'p';
    assert |s| == 0 ==> c[|c| - 1] == '[';
    assert |s| > 0 ==> c[|c| - 1] == s[|s| - 1] == '}';
    StripTrimmed(c);
  }

  /** The payloads of a reply cut off before its closer: the Gemini variant
      finds the encoded entries, the GPT variant nothing. */
  lemma TruncatedPayloads(events: seq<Event>)
    requires forall i :: 0 <= i < |events| ==> Writable(events[i])
    ensures Gemini.Payload(Marker + Literal(events)) == Some(Json.Encode(Rows(events)))
    ensures Gpt.Payload(Marker + Literal(events)).None?
  {
    var s := Literal(events);
    var c := Marker + s;
    assert c == "" + Marker + s;
    FirstMarker("", s);
    LiteralUnbracketed(events);
    NoCloserWithout(s);
    Gemini.PayloadAfterMarker(c);
    Gpt.PayloadBetweenMarkers(c);
    RepairedLiteral(events);
  }

  /** A reply cut off before its closer, as when the model stops at its
      token limit: the Gemini variant still reads every entry, the GPT
      variant reads none. */
  lemma TruncatedReply(events: seq<Event>)
    requires forall i :: 0 <= i < |events| ==> Writable(events[i])
    ensures Gemini.ParseReply(Marker + Literal(events), Json.Decode) == Table(events)
    ensures Gpt.ParseReply(Marker + Literal(events), Json.Decode) == []
  {
    TruncatedStripped(events);
    TruncatedPayloads(events);
    EncodedTable(events);
  }

  /** End to end in the corrected GPT processor: a document that reaches the
      model, a clock short of the last day and a reply in the requested form
      give the table of the entries the reply lists. */
  lemma GptEndToEnd(path: string, libs: Extraction.Libraries, clock: Clock, client: Client,
                    prefix: string, open: string, events: seq<Event>, close: string, suffix: string)
    requires ValidClock(clock) && clock.second != Dates.Date(Dates.MaxYear, 12, 31)
    requires !Gpt.SkipsModel(Extraction.ExtractText(path, libs))
    requires client(SentPrompt(Gpt.Prompts, Extraction.ExtractText(path, libs), clock).value) ==
      Ok(prefix + Reply(open, events, close) + suffix)
    requires forall i :: 0 <= i < |events| ==> Writable(events[i])
    requires Blank(open) && Blank(close)
    requires MarkerFree(prefix)
    ensures Gpt.Process(path, libs, clock, client, Json.Decode) == Returned(Table(events))
  {
    GptReplyRoundTrip(prefix, open, events, close, suffix);
  }

  /** End to end in the Gemini processor, under the same conditions. */
  lemma GeminiEndToEnd(path: string, libs: Extraction.Libraries, clock: Clock, client: Client,
                       prefix: string, open: string, events: seq<Event>, close: string, suffix: string)
    requires ValidClock(clock) && clock.second != Dates.Date(Dates.MaxYear, 12, 31)
    requires !Gemini.SkipsModel(Extraction.ExtractText(path, libs))
    requires client(SentPrompt(Gemini.Prompts, Extraction.ExtractText(path, libs), clock).value) ==
      Ok(prefix + Reply(open, events, close) + suffix)
    requires forall i :: 0 <= i < |events| ==> Writable(events[i])
    requires Blank(open) && Blank(close)
    requires MarkerFree(prefix)
    ensures Gemini.Process(path, libs, clock, client, Json.Decode) == Returned(Table(events))
  {
    GeminiReplyRoundTrip(prefix, open, events, close, suffix);
  }
}
