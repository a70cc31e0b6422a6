/** The reply both prompts ask the model for, a
    `pd.DataFrame([{'start': ..., 'end': ..., 'event': ...}, ...])` literal
    with single quotes, possibly broken over lines around its objects and
    wrapped in other text such as a code fence, and what each processor
    reads out of it. */
module Replies {
  import opened Results
  import opened PyStrings
  import opened Pipeline
  import Json
  import GptProcessor
  import GeminiProcessor

  /** One schedule entry: start date, end date and description. */
  datatype Event = Event(start: string, end: string, name: string)

  /** The columns of an entry, in the order the prompts show them. */
  function Fields(e: Event): Json.Members {
    [("start", e.start), ("end", e.end), ("event", e.name)]
  }

  function Rows(events: seq<Event>): seq<Json.Members> {
    seq(|events|, i requires 0 <= i < |events| => Fields(events[i]))
  }

  /** The objects of the literal, with JSON's double quotes. */
  function Body(events: seq<Event>): string {
    if |events| == 0 then "" else Json.EncodeObjectList(Rows(events))
  }

  /** The objects as the model writes them, with single quotes. */
  function Literal(events: seq<Event>): string {
    ReplaceChar(Body(events), DoubleQuote, SingleQuote)
  }

  /** The reply in the requested form: the marker, whitespace, the objects,
      whitespace and the closer. Both prompts show it over three lines, with
      `open` a line break and an indent and `close` a line break. */
  function Reply(open: string, events: seq<Event>, close: string): string {
    Marker + open + Literal(events) + close + Closer
  }

  /** A value the model can write between single quotes and that survives
      the repair: no double quote, backslash or control character (which
      JSON would need to escape), no single quote (which the repair would
      turn into a double quote) and no `]` (which could close the list). */
  predicate WritableField(f: string) {
    Json.AllPlain(f) && SingleQuote !in f && ']' !in f
  }

  predicate Writable(e: Event) {
    WritableField(e.start) && WritableField(e.end) && WritableField(e.name)
  }

  lemma KeysPlain()
    ensures Json.AllPlain("start") && Json.AllPlain("end") && Json.AllPlain("event")
  {
    assert forall c | c in "startendv" :: Json.IsPlain(c);
  }

  /** The members of a writable entry can be encoded without escapes. */
  lemma FieldsEncodable(e: Event)
    requires Writable(e)
    ensures Json.Encodable(Fields(e))
  {
    KeysPlain();
    var ms := Fields(e);
    assert ms[0] == ("start", e.start) && ms[1] == ("end", e.end) && ms[2] == ("event", e.name);
  }

  lemma RowsEncodable(events: seq<Event>)
    requires forall i :: 0 <= i < |events| ==> Writable(events[i])
    ensures forall i :: 0 <= i < |Rows(events)| ==> Json.Encodable(Rows(events)[i])
  {
    var rows := Rows(events);
    forall i | 0 <= i < |rows| ensures Json.Encodable(rows[i]) {
      FieldsEncodable(events[i]);
    }
  }

  /** The table the entries make: one row per entry, holding exactly the
      three columns. */
  function Table(events: seq<Event>): (t: Json.Table)
    ensures |t| == |events|
    ensures forall i :: 0 <= i < |t| ==>
      t[i] == map["start" := events[i].start, "end" := events[i].end, "event" := events[i].name]
  {
    var t := Json.ToTable(Rows(events));
    forall i | 0 <= i < |t|
      ensures t[i] == map["start" := events[i].start, "end" := events[i].end, "event" := events[i].name]
    {
      EventRow(events[i]);
    }
    t
  }

  lemma EventRow(e: Event)
    ensures Json.ToRow(Fields(e)) == map["start" := e.start, "end" := e.end, "event" := e.name]
  {
    var ms := Fields(e);
    assert Json.Store(map[], ms) == Json.Store(map["start" := e.start], ms[1..]);
    assert Json.Store(map["start" := e.start], ms[1..])
        == Json.Store(map["start" := e.start, "end" := e.end], ms[2..]);
    assert Json.Store(map["start" := e.start, "end" := e.end], ms[2..])
        == Json.Store(map["start" := e.start, "end" := e.end, "event" := e.name], ms[3..]);
  }

  /** The characters JSON's encoder puts around keys and values. */
  const Punctuation: set<char> := {'{', '}', '"', ':', ' ', ','}

  lemma {:induction false} MembersAvoid(ms: Json.Members, c: char)
    requires |ms| > 0 && c !in Punctuation
    requires forall k :: 0 <= k < |ms| ==> c !in ms[k].0 && c !in ms[k].1
    ensures c !in Json.EncodeMemberList(ms)
  {
    if |ms| > 1 {
      MembersAvoid(ms[1..], c);
    }
  }

  lemma {:induction false} ObjectsAvoid(rows: seq<Json.Members>, c: char)
    requires |rows| > 0 && c !in Punctuation
    requires forall i, k :: 0 <= i < |rows| && 0 <= k < |rows[i]| ==> c !in rows[i][k].0 && c !in rows[i][k].1
    ensures c !in Json.EncodeObjectList(rows)
  {
    if |rows[0]| > 0 {
      MembersAvoid(rows[0], c);
    }
    if |rows| > 1 {
      ObjectsAvoid(rows[1..], c);
    }
  }

  /** A character that no key and no value holds is not in the objects. */
  lemma BodyAvoids(events: seq<Event>, c: char)
    requires c == ']' || c == SingleQuote
    requires forall i :: 0 <= i < |events| ==> Writable(events[i])
    ensures c !in Body(events)
  {
    if |events| > 0 {
      var rows: seq<Json.Members> := Rows(events);
      forall i, k | 0 <= i < |rows| && 0 <= k < |rows[i]| ensures c !in rows[i][k].0 && c !in rows[i][k].1 {
        assert rows[i] == Fields(events[i]);
      }
      ObjectsAvoid(rows, c);
    }
  }

  lemma {:induction false} ObjectListBraces(rows: seq<Json.Members>)
    requires |rows| > 0
    ensures var s := Json.EncodeObjectList(rows); |s| >= 2 && s[0] == '{' && s[|s| - 1] == '}'
  {
    if |rows| > 1 {
      ObjectListBraces(rows[1..]);
    }
  }

  /** The literal is empty or runs from `{` to `}`, so the repair does not
      strip it. */
  lemma LiteralBraced(events: seq<Event>)
    ensures var s := Literal(events); |s| > 0 ==> s[0] == '{' && s[|s| - 1] == '}'
  {
    var b := Body(events);
    var s := Literal(events);
    assert |s| == |b|;
    if |events| > 0 {
      ObjectListBraces(Rows(events));
      assert s[0] == '{' && s[|s| - 1] == '}';
    }
  }

  /** Turning the single quotes back into double quotes restores the JSON
      objects. */
  lemma LiteralRestored(events: seq<Event>)
    requires forall i :: 0 <= i < |events| ==> Writable(events[i])
    ensures ReplaceChar("[" + Literal(events) + "]", SingleQuote, DoubleQuote) == "[" + Body(events) + "]"
  {
    var b := Body(events);
    BodyAvoids(events, SingleQuote);
    ReplaceCharBracketed(b, DoubleQuote, SingleQuote);
    assert SingleQuote !in "[" + b + "]";
    ReplaceCharBack("[" + b + "]", DoubleQuote, SingleQuote);
  }

  lemma BodyEncodes(events: seq<Event>)
    ensures Json.Encode(Rows(events)) == "[" + Body(events) + "]"
  {
    var rows := Rows(events);
    assert |rows| == |events|;
    Json.Assoc("[", Body(events), "]");
  }

  /** The repair undoes the single quotes: the literal becomes exactly the
      JSON encoding of the entries. */
  lemma RepairedLiteral(events: seq<Event>)
    requires forall i :: 0 <= i < |events| ==> Writable(events[i])
    ensures Normalise(Literal(events)) == Json.Encode(Rows(events))
  {
    LiteralBraced(events);
    NormaliseBraced(Literal(events));
    LiteralRestored(events);
    BodyEncodes(events);
  }

  /** The whitespace around the objects holds no `]`. */
  lemma BlankAvoidsBracket(w: string)
    requires Blank(w)
    ensures ']' !in w
  {
    VisibleNotSpace(']');
  }

  /** The objects and the whitespace around them end at the closer that
      follows them. */
  lemma LiteralCut(open: string, events: seq<Event>, close: string, suffix: string)
    requires forall i :: 0 <= i < |events| ==> Writable(events[i])
    requires Blank(open) && Blank(close)
    ensures var inner := open + Literal(events) + close;
      && UpToCloser(inner + Closer + suffix) == inner
      && Contains(inner + Closer + suffix, Closer)
  {
    var s := Literal(events);
    var inner := open + s + close;
    var rest := inner + Closer + suffix;
    BodyAvoids(events, ']');
    assert forall k :: 0 <= k < |s| ==> s[k] != ']';
    BlankAvoidsBracket(open);
    BlankAvoidsBracket(close);
    assert ']' !in inner;
    UpToCloserOf(inner, suffix);
    assert rest[|inner|..|inner| + |Closer|] == Closer;
    assert IsAt(rest, Closer, |inner|);
  }

  lemma ReplyParts(prefix: string, open: string, s: string, close: string, suffix: string)
    ensures prefix + (Marker + open + s + close + Closer) + suffix
         == prefix + Marker + (open + s + close + Closer + suffix)
  {
  }

  /** The payload the repair starts from: what follows the marker up to the
      closer, even when text precedes or follows the reply. */
  lemma ReplySlices(prefix: string, open: string, events: seq<Event>, close: string, suffix: string)
    requires forall i :: 0 <= i < |events| ==> Writable(events[i])
    requires Blank(open) && Blank(close)
    requires MarkerFree(prefix)
    ensures var c := prefix + Reply(open, events, close) + suffix;
      && Contains(c, Marker)
      && AfterMarker(c) == open + Literal(events) + close + Closer + suffix
      && UpToCloser(AfterMarker(c)) == open + Literal(events) + close
      && Contains(AfterMarker(c), Closer)
  {
    var inner := open + Literal(events) + close;
    ReplyParts(prefix, open, Literal(events), close, suffix);
    FirstMarker(prefix, inner + Closer + suffix);
    LiteralCut(open, events, close, suffix);
  }

  /** `strip()` of a reply with text around it removes only whitespace at
      the start of the text before and at the end of the text after: the
      reply itself starts with `p` and ends with `)`. */
  lemma ReplyStripped(prefix: string, open: string, events: seq<Event>, close: string, suffix: string)
    ensures Strip(prefix + Reply(open, events, close) + suffix)
         == TrimStart(prefix, Whitespace) + Reply(open, events, close) + TrimEnd(suffix, Whitespace)
  {
    var r := Reply(open, events, close);
    assert r[0] == 'p' && r[|r| - 1] == ')';
    VisibleNotSpace('p');
    VisibleNotSpace(')');
    StripAround(prefix, r, suffix);
  }

  /** Stripping whitespace from the front of a marker-free text leaves it
      marker-free. */
  lemma TrimmedMarkerFree(prefix: string)
    requires MarkerFree(prefix)
    ensures MarkerFree(TrimStart(prefix, Whitespace))
  {
    var front := TrimStart(prefix, Whitespace);
    MarkerFreeSuffix(prefix, |prefix| - |front|);
  }

  /** The repair strips the whitespace around the objects before undoing
      the single quotes. */
  lemma PaddedLiteral(open: string, events: seq<Event>, close: string)
    requires forall i :: 0 <= i < |events| ==> Writable(events[i])
    requires Blank(open) && Blank(close)
    ensures Normalise(open + Literal(events) + close) == Json.Encode(Rows(events))
  {
    var s := Literal(events);
    LiteralBraced(events);
    VisibleNotSpace('{');
    VisibleNotSpace('}');
    StripPadded(open, s, close);
    StripTrimmed(s);
    assert Strip(open + s + close) == Strip(s);
    RepairedLiteral(events);
  }

  /** Both processors find the JSON encoding of the entries in such a reply. */
  lemma ReplyPayload(prefix: string, open: string, events: seq<Event>, close: string, suffix: string)
    requires forall i :: 0 <= i < |events| ==> Writable(events[i])
    requires Blank(open) && Blank(close)
    requires MarkerFree(prefix)
    ensures var c := prefix + Reply(open, events, close) + suffix;
      && GptProcessor.Payload(c) == Some(Json.Encode(Rows(events)))
      && GeminiProcessor.Payload(c) == Some(Json.Encode(Rows(events)))
  {
    var c := prefix + Reply(open, events, close) + suffix;
    ReplySlices(prefix, open, events, close, suffix);
    GptProcessor.PayloadBetweenMarkers(c);
    GeminiProcessor.PayloadAfterMarker(c);
    PaddedLiteral(open, events, close);
  }

  /** The encoding of the entries decodes to their table. */
  lemma EncodedTable(events: seq<Event>)
    requires forall i :: 0 <= i < |events| ==> Writable(events[i])
    ensures TableOf(Some(Json.Encode(Rows(events))), Json.Decode) == Table(events)
  {
    var rows := Rows(events);
    RowsEncodable(events);
    Json.DecodeEncode(rows);
    assert Table(events) == Json.ToTable(rows);
  }

  /** A reply in the requested form, with any whitespace around its objects
      and any text around it, reads back in the GPT variant as the entries it
      lists. No marker may start in the text before the reply, so the first
      marker is the reply's own. */
  lemma GptReplyRoundTrip(prefix: string, open: string, events: seq<Event>, close: string, suffix: string)
    requires forall i :: 0 <= i < |events| ==> Writable(events[i])
    requires Blank(open) && Blank(close)
    requires MarkerFree(prefix)
    ensures GptProcessor.ParseReply(prefix + Reply(open, events, close) + suffix, Json.Decode) == Table(events)
  {
    var c := prefix + Reply(open, events, close) + suffix;
    var front := TrimStart(prefix, Whitespace);
    var back := TrimEnd(suffix, Whitespace);
    calc {
      GptProcessor.ParseReply(c, Json.Decode);
      TableOf(GptProcessor.Payload(Strip(c)), Json.Decode);
      { ReplyStripped(prefix, open, events, close, suffix); }
      TableOf(GptProcessor.Payload(front + Reply(open, events, close) + back), Json.Decode);
      { TrimmedMarkerFree(prefix);
        ReplyPayload(front, open, events, close, back); }
      TableOf(Some(Json.Encode(Rows(events))), Json.Decode);
      { EncodedTable(events); }
      Table(events);
    }
  }

  /** The same reply reads back as the same entries in the Gemini variant. */
  lemma GeminiReplyRoundTrip(prefix: string, open: string, events: seq<Event>, close: string, suffix: string)
    requires forall i :: 0 <= i < |events| ==> Writable(events[i])
    requires Blank(open) && Blank(close)
    requires MarkerFree(prefix)
    ensures GeminiProcessor.ParseReply(prefix + Reply(open, events, close) + suffix, Json.Decode) == Table(events)
  {
    var c := prefix + Reply(open, events, close) + suffix;
    var front := TrimStart(prefix, Whitespace);
    var back := TrimEnd(suffix, Whitespace);
    calc {
      GeminiProcessor.ParseReply(c, Json.Decode);
      TableOf(GeminiProcessor.Payload(Strip(c)), Json.Decode);
      { ReplyStripped(prefix, open, events, close, suffix); }
      TableOf(GeminiProcessor.Payload(front + Reply(open, events, close) + back), Json.Decode);
      { TrimmedMarkerFree(prefix);
        ReplyPayload(front, open, events, close, back); }
      TableOf(Some(Json.Encode(Rows(events))), Json.Decode);
      { EncodedTable(events); }
      Table(events);
    }
  }

  /** The opening of the code fence the Gemini prompt shows around the reply. */
  const FenceOpen: string := "```python\n"

  /** The end of the code fence. */
  const FenceClose: string := "\n```"

  /** The fence's opening holds a `p` but no marker. */
  lemma FenceMarkerFree()
    ensures MarkerFree(FenceOpen)
  {
    var c := FenceOpen + Marker;
    forall q | 0 <= q < |FenceOpen|
      ensures !IsAt(c, Marker, q)
    {
      assert c[q] == FenceOpen[q];
      assert c[q + 1] == (if q + 1 < |FenceOpen| then FenceOpen[q + 1] else 'p');
      assert c[q..q + |Marker|][0] == c[q];
      assert c[q..q + |Marker|][1] == c[q + 1];
    }
  }

  /** The reply exactly as the Gemini prompt lays it out, fenced and over
      three lines, reads back as its entries in both variants. */
  lemma FencedReply(events: seq<Event>)
    requires forall i :: 0 <= i < |events| ==> Writable(events[i])
    ensures var c := FenceOpen + Reply("\n    ", events, "\n") + FenceClose;
      && GeminiProcessor.ParseReply(c, Json.Decode) == Table(events)
      && GptProcessor.ParseReply(c, Json.Decode) == Table(events)
  {
    FenceMarkerFree();
    assert Blank("\n    ") && Blank("\n");
    GeminiReplyRoundTrip(FenceOpen, "\n    ", events, "\n", FenceClose);
    GptReplyRoundTrip(FenceOpen, "\n    ", events, "\n", FenceClose);
  }
}
