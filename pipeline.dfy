/** What the two `CalendarDataProcessor` variants share besides text
    extraction: how a call ends, the injected clock, the model client and the
    markers that delimit the table literal in a model reply. */
module Pipeline {
  import opened Results
  import opened PyStrings
  import Dates
  import Json
  import Extraction

  /** The exceptions that escape `_ask_ai` and `process`. */
  datatype PyError =
    | UnboundLocalError(name: string)  // a local read before it is assigned
    | OverflowError                     // `datetime.now() + timedelta(days=1)` past 9999-12-31

  /** How `process` ends: with a table (possibly the empty `pd.DataFrame()`),
      or by raising. */
  datatype Outcome = Returned(table: Json.Table) | Raised(error: PyError)

  /** The two readings of `datetime.now()`: the first gives `today`, the
      second is the one `timedelta(days=1)` is added to. */
  datatype Clock = Clock(first: Dates.Date, second: Dates.Date)

  predicate ValidClock(c: Clock) {
    Dates.Valid(c.first) && Dates.Valid(c.second)
  }

  /** The hosted model: prompt in, reply text out, or the exception the
      client library raised. */
  type Client = string -> Result<string>

  /** `json.loads` followed by `pd.DataFrame(...)`: a table, or `None` when
      either raises. */
  type Decoder = string -> Option<Json.Table>

  /** The text that opens the table literal in a reply. */
  const Marker: string := "pd.DataFrame(["

  /** The text that closes it. */
  const Closer: string := "])"

  /** The quote the model is asked to write, and the one JSON needs. */
  const SingleQuote: char := '\''
  const DoubleQuote: char := '"'

  /** Both processors repair the sliced text the same way: strip it, drop
      trailing commas, wrap it in brackets and turn single quotes into double
      quotes. */
  function Normalise(inner: string): (p: string)
    ensures |p| >= 2 && p[0] == '[' && p[|p| - 1] == ']'
    ensures SingleQuote !in p
    ensures |p| > 2 ==> p[|p| - 2] != ','
  {
    var body := TrimEnd(Strip(inner), {','});
    var p := ReplaceChar("[" + body + "]", SingleQuote, DoubleQuote);
    ReplaceCharRemoves("[" + body + "]", SingleQuote, DoubleQuote);
    p
  }

  /** A text that is empty or runs from `{` to `}` needs no stripping. */
  lemma NormaliseBraced(inner: string)
    requires |inner| > 0 ==> inner[0] == '{' && inner[|inner| - 1] == '}'
    ensures Normalise(inner) == ReplaceChar("[" + inner + "]", SingleQuote, DoubleQuote)
  {
    VisibleNotSpace('{');
    VisibleNotSpace('}');
    StripTrimmed(inner);
  }

  /** The table that a payload decodes to, the empty table when decoding
      fails (the `except` branch of `_ask_ai`). */
  function TableOf(payload: Option<string>, decode: Decoder): (t: Json.Table)
    ensures payload.None? ==> t == []
    ensures payload.Some? && decode(payload.value).Some? ==> t == decode(payload.value).value
    ensures payload.Some? && decode(payload.value).None? ==> t == []
  {
    match payload
    case None => []
    case Some(p) => (match decode(p) case Some(t) => t case None => [])
  }

  /** The marker cannot contain the start of a closer, so the first closer
      at or after the marker's position lies after its last character. */
  lemma CloserAfterMarker(text: string, i: int, j: int)
    requires IsAt(text, Marker, i) && IsAt(text, Closer, j) && i <= j
    ensures j >= i + |Marker|
  {
    forall q | i <= q < i + |Marker| ensures text[q] != ']' {
      assert text[q] == text[i..i + |Marker|][q - i];
    }
    assert text[j] == text[j..j + |Closer|][0] == ']';
  }

  /** Searching for the closer from the marker's position is searching in
      the text after the marker. */
  lemma FindCloserAfterMarker(text: string, i: int)
    requires IsAt(text, Marker, i)
    ensures var j := Find(text, Closer, i);
      && (j == -1 <==> !Contains(text[i + |Marker|..], Closer))
      && (j != -1 ==> j >= i + |Marker| && j - (i + |Marker|) == Find(text[i + |Marker|..], Closer, 0))
  {
    var k := i + |Marker|;
    var rest := text[k..];
    var j := Find(text, Closer, i);
    FindFailsIffAbsent(rest, Closer);
    var f := Find(rest, Closer, 0);
    if j != -1 {
      CloserAfterMarker(text, i, j);
      IsAtShifted(text, k, Closer, j - k);
    }
    if f != -1 {
      IsAtShifted(text, k, Closer, f);
    }
  }

  /** What follows the first marker in `text`. */
  function AfterMarker(text: string): (rest: string)
    requires Contains(text, Marker)
    ensures |rest| + |Marker| <= |text|
    ensures IsAt(text, Marker, |text| - |rest| - |Marker|)
    ensures forall q :: 0 <= q < |text| - |rest| - |Marker| ==> !IsAt(text, Marker, q)
    ensures rest == text[|text| - |rest|..]
  {
    FindFailsIffAbsent(text, Marker);
    text[Find(text, Marker, 0) + |Marker|..]
  }

  /** What precedes the first closer in `s`, or all of `s` when it has none. */
  function UpToCloser(s: string): (r: string)
    ensures |r| <= |s| && r == s[..|r|]
    ensures !Contains(r, Closer)
    ensures |r| < |s| <==> Contains(s, Closer)
    ensures |r| < |s| ==> IsAt(s, Closer, |r|)
  {
    var f := Find(s, Closer, 0);
    FindFailsIffAbsent(s, Closer);
    if f == -1 then s
    else
      assert !Contains(s[..f], Closer) by {
        forall q | 0 <= q <= f ensures !IsAt(s[..f], Closer, q) {
          if q + |Closer| <= f {
            assert !IsAt(s, Closer, q);
            assert s[..f][q..q + |Closer|] == s[q..q + |Closer|];
          }
        }
      }
      s[..f]
  }

  /** `s.split("])")[0]` is the text before the first closer. */
  lemma SplitAtCloser(s: string)
    ensures Split(s, Closer, -1)[0] == UpToCloser(s)
  {
    SplitHead(s, Closer);
  }

  /** A text free of `]` followed by a closer is cut exactly at that
      closer, whatever comes after it. */
  lemma UpToCloserOf(s: string, tail: string)
    requires ']' !in s
    ensures UpToCloser(s + Closer + tail) == s
  {
    var x := s + Closer + tail;
    var r := UpToCloser(x);
    assert x[|s|..|s| + |Closer|] == Closer;
    assert IsAt(x, Closer, |s|);
    assert x[|r|] == x[|r|..|r| + |Closer|][0] == ']';
    assert !IsAt(r, Closer, |s|);
    assert x[|s| + 1] == ')';
    assert forall k :: 0 <= k < |s| ==> x[k] == s[k];
    assert r == x[..|s|];
  }

  /** A text free of `]` holds no closer, so nothing is cut from it. */
  lemma NoCloserWithout(s: string)
    requires ']' !in s
    ensures !Contains(s, Closer) && UpToCloser(s) == s
  {
    forall i | 0 <= i <= |s| ensures !IsAt(s, Closer, i) {
      if i + |Closer| <= |s| {
        assert s[i..i + |Closer|][0] == s[i];
      }
    }
  }

  /** No marker starts inside `prefix`, not even one that runs on into a
      marker written right after it. */
  predicate MarkerFree(prefix: string) {
    forall q :: 0 <= q < |prefix| ==> !IsAt(prefix + Marker, Marker, q)
  }

  /** A prefix without the marker's first letter is marker-free. */
  lemma NoLeadLetter(prefix: string)
    requires 'p' !in prefix
    ensures MarkerFree(prefix)
  {
    forall q | 0 <= q < |prefix|
      ensures !IsAt(prefix + Marker, Marker, q)
    {
      var c := prefix + Marker;
      assert c[q] == prefix[q];
      if q + |Marker| <= |c| {
        assert c[q..q + |Marker|][0] == c[q];
      }
    }
  }

  /** What is left of a marker-free text after dropping its first `k`
      characters is marker-free too. */
  lemma MarkerFreeSuffix(prefix: string, k: nat)
    requires MarkerFree(prefix) && k <= |prefix|
    ensures MarkerFree(prefix[k..])
  {
    var c := prefix + Marker;
    assert prefix[k..] + Marker == c[k..];
    forall q | 0 <= q < |prefix| - k
      ensures !IsAt(prefix[k..] + Marker, Marker, q)
    {
      IsAtShifted(c, k, Marker, q);
      assert !IsAt(c, Marker, q + k);
    }
  }

  /** When no marker starts in the text before a marker, that marker is the
      first one and what follows it is the rest of the text. */
  lemma FirstMarker(prefix: string, rest: string)
    requires MarkerFree(prefix)
    ensures Contains(prefix + Marker + rest, Marker)
    ensures AfterMarker(prefix + Marker + rest) == rest
  {
    var c := prefix + Marker + rest;
    var pos := |prefix|;
    assert IsAt(c, Marker, pos) by {
      assert c[pos..pos + |Marker|] == Marker;
    }
    forall q | 0 <= q < pos
      ensures !IsAt(c, Marker, q)
    {
      assert !IsAt(prefix + Marker, Marker, q);
      assert c[q..q + |Marker|] == (prefix + Marker)[q..q + |Marker|];
    }
    var after := AfterMarker(c);
    assert |c| - |after| - |Marker| == pos;
    assert c[pos + |Marker|..] == rest;
  }

  lemma BetweenMarkers(text: string)
    requires Contains(text, Marker)
    ensures var i := Find(text, Marker, 0); var j := Find(text, Closer, i);
      && 0 <= i
      && (j == -1 <==> !Contains(AfterMarker(text), Closer))
      && (j != -1 ==> i + |Marker| <= j && text[i + |Marker|..j] == UpToCloser(AfterMarker(text)))
  {
    FindFailsIffAbsent(text, Marker);
    var i := Find(text, Marker, 0);
    FindCloserAfterMarker(text, i);
    var rest := AfterMarker(text);
    assert rest == text[i + |Marker|..];
    var j := Find(text, Closer, i);
    if j != -1 {
      FindFailsIffAbsent(rest, Closer);
      assert text[i + |Marker|..j] == rest[..j - (i + |Marker|)];
    }
  }

  /** The fixed text of a prompt around its substitutions: the prompt is
      `intro + today + rules + today + between + tomorrow + closing + text`. */
  datatype Template = Template(intro: string, rules: string, between: string, closing: string)

  function Fill(t: Template, today: string, tomorrow: string, text: string): string {
    t.intro + today + t.rules + today + t.between + tomorrow + t.closing + text
  }

  /** The prompt `_ask_ai` builds from the two clock readings: `today` from
      the first, `tomorrow` one day after the second; `None` when adding the
      day overflows. */
  function SentPrompt(t: Template, text: string, clock: Clock): (r: Option<string>)
    requires ValidClock(clock)
    ensures r.None? <==> clock.second == Dates.Date(Dates.MaxYear, 12, 31)
  {
    match Dates.NextDay(clock.second)
    case None => None
    case Some(next) => Some(Fill(t, Dates.Format(clock.first), Dates.Format(next), text))
  }

  /** Where the first `today` starts. */
  function TodayAt(t: Template): nat {
    |t.intro|
  }

  /** Where the second `today` starts. */
  function TodayAgainAt(t: Template): nat {
    |t.intro| + 10 + |t.rules|
  }

  /** Where `tomorrow` starts. */
  function TomorrowAt(t: Template): nat {
    |t.intro| + 10 + |t.rules| + 10 + |t.between|
  }

  /** Where each piece of a filled template lies, for dates of ten characters. */
  lemma FillSlots(t: Template, today: string, tomorrow: string, text: string)
    requires |today| == 10 && |tomorrow| == 10
    ensures var p := Fill(t, today, tomorrow, text);
      && |p| == TomorrowAt(t) + 10 + |t.closing| + |text|
      && p[TodayAt(t)..TodayAt(t) + 10] == today
      && p[TodayAgainAt(t)..TodayAgainAt(t) + 10] == today
      && p[TomorrowAt(t)..TomorrowAt(t) + 10] == tomorrow
      && p[TomorrowAt(t) + 10..|p| - |text|] == t.closing
      && p[|p| - |text|..] == text
  {
    var a := t.intro + today;
    var b := a + t.rules + today;
    var c := b + t.between + tomorrow;
    var d := c + t.closing;
    var p := d + text;
    assert p[|t.intro|..|t.intro| + |today|] == a[|t.intro|..];
    assert p[|b| - |today|..|b|] == b[|b| - |today|..];
    assert p[|c| - |tomorrow|..|c|] == c[|c| - |tomorrow|..];
    assert p[|c|..|d|] == d[|c|..];
  }

  /** The prompt carries both dates at fixed places, where they read back as
      the first clock reading and the day after the second; the document
      closes the prompt unchanged, right after the template's closing text. */
  lemma PromptCarriesDates(t: Template, text: string, clock: Clock)
    requires ValidClock(clock) && SentPrompt(t, text, clock).Some?
    ensures var p := SentPrompt(t, text, clock).value;
      && |p| == TomorrowAt(t) + 10 + |t.closing| + |text|
      && Dates.ParseIso(p[TodayAt(t)..TodayAt(t) + 10]) == Some(clock.first)
      && Dates.ParseIso(p[TodayAgainAt(t)..TodayAgainAt(t) + 10]) == Some(clock.first)
      && Dates.ParseIso(p[TomorrowAt(t)..TomorrowAt(t) + 10]) == Dates.NextDay(clock.second)
      && p[TomorrowAt(t) + 10..|p| - |text|] == t.closing
      && p[|p| - |text|..] == text
  {
    var next := Dates.NextDay(clock.second).value;
    var today := Dates.Format(clock.first);
    var tomorrow := Dates.Format(next);
    var p := SentPrompt(t, text, clock).value;
    assert p == Fill(t, today, tomorrow, text);
    FillSlots(t, today, tomorrow, text);
    assert Dates.ParseIso(today) == Some(clock.first) by {
      Dates.FormatRoundTrip(clock.first);
    }
    assert Dates.ParseIso(tomorrow) == Some(next) by {
      Dates.FormatRoundTrip(next);
    }
  }

  /** With an empty document the prompt ends with the template's closing
      text. */
  lemma EmptyTextPrompt(t: Template, clock: Clock)
    requires ValidClock(clock) && SentPrompt(t, "", clock).Some?
    ensures var p := SentPrompt(t, "", clock).value;
      |p| >= |t.closing| && p[|p| - |t.closing|..] == t.closing
  {
    PromptCarriesDates(t, "", clock);
  }

  /** When both readings fall on the same day `d`, the prompt's tomorrow is
      the day after its today. */
  lemma TomorrowFollowsToday(t: Template, text: string, d: Dates.Date)
    requires Dates.Valid(d) && d != Dates.Date(Dates.MaxYear, 12, 31)
    ensures SentPrompt(t, text, Clock(d, d)).Some?
    ensures var p := SentPrompt(t, text, Clock(d, d)).value;
      && Dates.ParseIso(p[TodayAt(t)..TodayAt(t) + 10]) == Some(d)
      && Dates.ParseIso(p[TomorrowAt(t)..TomorrowAt(t) + 10]).Some?
      && Dates.Ordinal(Dates.ParseIso(p[TomorrowAt(t)..TomorrowAt(t) + 10]).value) == Dates.Ordinal(d) + 1
  {
    PromptCarriesDates(t, text, Clock(d, d));
    Dates.NextDayIsOneDayLater(d);
  }
}
