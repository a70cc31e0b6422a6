/** `CalendarDataProcessor` of `extractor/dataProcessor.py`: the same
    pipeline as the GPT variant, talking to a Gemini model, cutting the table
    literal out of the reply with `split` instead of `find`, and sending an
    empty document to the model. */
module GeminiProcessor {
  import opened Results
  import opened PyStrings
  import opened Pipeline
  import Dates
  import Json
  import Extraction

  /** The prompt of `_ask_ai` (lines 66-86): its fixed text around `{today}`,
      `{today}` again, `{tomorrow}` and `{extracted_text}`. */
  const Prompts: Template := Template(
    "다음 문서에서 일정 관련 내용을 추출하여 아래 형식의 pandas DataFrame으로 정리하세요.\n\n📌 규칙:\n1. '오늘', '내일', '다음 주' 등 상대적 시간 표현은 반드시 오늘 날짜 ",
    "를 기준으로 YYYY-MM-DD 형식으로 변환하세요.\n2. '~부터', '~까지' 등의 기간 표현은 start와 end로 분리하여 날짜를 지정하세요.\n3. '~한다', '~하자', '~예정' 등의 표현이 포함된 문장은 event로 추출하세요.\n4. 시작일과 종료일이 동일하거나 하나만 있을 경우, start와 end에 동일한 날짜를 입력하세요.\n\n📌 출력 형식:\n```python\npd.DataFrame([\n    {'start': '",
    "', 'end': '",
    "', 'event': '길동이와 여행'}\n])\n```\n\n📌 예시 문장:\n- 오늘부터 내일 길동이와 여행\n- 내일까지 길동이와 여행\n\n🔽 문서 내용:\n")

  /** Lines 93-95: `split("pd.DataFrame([", 1)[1].split("])")[0]`, repaired
      into JSON; `None` where indexing the split raises `IndexError`. */
  function Payload(text: string): (r: Option<string>)
    ensures r.Some? <==> Contains(text, Marker)
    ensures r.Some? ==> |r.value| >= 2 && r.value[0] == '[' && r.value[|r.value| - 1] == ']'
    ensures r.Some? ==> SingleQuote !in r.value
  {
    SplitOnce(text, Marker);
    var parts := Split(text, Marker, 1);
    if |parts| < 2 then None
    else Some(Normalise(Split(parts[1], Closer, -1)[0]))
  }

  /** There is a payload exactly when the reply has a marker; it is the text
      from there to the first closer, or to the end of the reply when no
      closer follows. */
  lemma PayloadAfterMarker(text: string)
    ensures Payload(text).Some? <==> Contains(text, Marker)
    ensures Payload(text).Some? ==> Payload(text).value == Normalise(UpToCloser(AfterMarker(text)))
  {
    SplitOnce(text, Marker);
    if Contains(text, Marker) {
      FindFailsIffAbsent(text, Marker);
      SplitAtCloser(AfterMarker(text));
    }
  }

  /** The table read from a reply: the payload decoded, or the empty table
      (the `except` branch at lines 98-102). */
  function ParseReply(content: string, decode: Decoder): (t: Json.Table)
    ensures !Contains(Strip(content), Marker) ==> t == []
  {
    TableOf(Payload(Strip(content)), decode)
  }

  /** `_ask_ai(extracted_text)`. The clock is read outside the `try`, so its
      overflow escapes; everything inside the `try` ends in a table. */
  function AskAi(text: string, clock: Clock, client: Client, decode: Decoder): (r: Outcome)
    requires ValidClock(clock)
    ensures r.Raised? <==> clock.second == Dates.Date(Dates.MaxYear, 12, 31)
    ensures r.Raised? ==> r.error == OverflowError
  {
    match SentPrompt(Prompts, text, clock)
    case None => Raised(OverflowError)
    case Some(prompt) =>
      match client(prompt)
      case Err(_) => Returned([])
      case Ok(content) => Returned(ParseReply(content, decode))
  }

  /** The guard of `process`: only a text carrying the failure mark is kept
      from the model. */
  predicate SkipsModel(text: string) {
    Contains(text, Extraction.FailureMark)
  }

  /** `process(filepath)`. */
  function Process(path: string, libs: Extraction.Libraries, clock: Clock, client: Client, decode: Decoder): Outcome
    requires ValidClock(clock)
  {
    var text := Extraction.ExtractText(path, libs);
    if SkipsModel(text) then Returned([]) else AskAi(text, clock, client, decode)
  }

  /** A marked text gives the empty table whatever the clock, the model and
      the decoder would have done; in particular every failed extraction. */
  lemma MarkedTextGivesEmptyTable(path: string, libs: Extraction.Libraries, clock: Clock, client: Client, decode: Decoder)
    requires ValidClock(clock)
    requires SkipsModel(Extraction.ExtractText(path, libs)) || Extraction.Failed(path, libs)
    ensures Process(path, libs, clock, client, decode) == Returned([])
  {
    if Extraction.Failed(path, libs) {
      Extraction.FailureIsMarked(path, libs);
    }
  }

  /** `process` raises only when the text reaches the model and the clock
      stands at the last representable day. */
  lemma ProcessRaisesIff(path: string, libs: Extraction.Libraries, clock: Clock, client: Client, decode: Decoder)
    requires ValidClock(clock)
    ensures Process(path, libs, clock, client, decode).Raised? <==>
      !SkipsModel(Extraction.ExtractText(path, libs)) && clock.second == Dates.Date(Dates.MaxYear, 12, 31)
    ensures Process(path, libs, clock, client, decode).Raised? ==>
      Process(path, libs, clock, client, decode).error == OverflowError
  {
  }

  /** An empty document is sent to the model: the prompt then ends with the
      header `🔽 문서 내용:` and nothing after it. */
  lemma EmptyTextReachesModel(path: string, libs: Extraction.Libraries, clock: Clock, client: Client, decode: Decoder)
    requires ValidClock(clock) && clock.second != Dates.Date(Dates.MaxYear, 12, 31)
    requires Extraction.ExtractText(path, libs) == ""
    ensures SentPrompt(Prompts, "", clock).Some?
    ensures var p := SentPrompt(Prompts, "", clock).value;
      && |p| >= |Prompts.closing| && p[|p| - |Prompts.closing|..] == Prompts.closing
    ensures Process(path, libs, clock, client, decode) == AskAi("", clock, client, decode)
  {
    assert !Contains("", Extraction.FailureMark) by {
      assert forall i :: !IsAt("", Extraction.FailureMark, i);
    }
    EmptyTextPrompt(Prompts, clock);
  }
}
