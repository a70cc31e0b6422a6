/** `CalendarDataProcessor` of `extractor/dataProcessor_gpt.py`: the text of
    a document is sent to an OpenAI chat model together with today's and
    tomorrow's dates, and the `pd.DataFrame([...])` literal in the reply is
    located with `find`, repaired into JSON and decoded. */
module GptProcessor {
  import opened Results
  import opened PyStrings
  import opened Pipeline
  import Dates
  import Json
  import Extraction

  /** The prompt of `_ask_ai` (lines 68-87): its fixed text around `{today}`,
      `{today}` again, `{tomorrow}` and `{extracted_text}`. */
  const Prompts: Template := Template(
    "다음 문서에서 일정 관련 내용을 추출하여 아래 형식의 pandas DataFrame으로 정리하세요.\n\n 규칙:\n1. '오늘', '내일', '다음 주' 등 상대적 시간 표현은 ~부터', '~까지' 등의 표현dl 없다면 반드시 오늘 날짜 ",
    " 기준으로 YYYY-MM-DD 형식으로 변환하세요.\n2. '~부터', '~까지' 등의 표현은 start, end로 분리하세요.\n3. '~예정', '~하자' 포함 문장은 event로 간주하세요.\n4. start와 end는 동일해도 허용됩니다.\n\n 출력 형식은 반드시 아래처럼 DataFrame 생성 코드 한 줄만 출력하세요:\npd.DataFrame([\n    {'start': '",
    "', 'end': '",
    "', 'event': '길동이와 여행'}\n])\n\n중요: 아래는 절대 출력하지 마세요:\n- import pandas as pd\n- df = ... 또는 변수 선언\n- 설명, 주석\n\n🔽 문서 내용:\n")

  /** Lines 105-113: the payload between the first marker and the first
      closer found from the marker's position, repaired into JSON; `None`
      where the source raises `ValueError`. */
  function Payload(text: string): (r: Option<string>)
    ensures !Contains(text, Marker) ==> r.None?
    ensures r.Some? ==> |r.value| >= 2 && r.value[0] == '[' && r.value[|r.value| - 1] == ']'
    ensures r.Some? ==> SingleQuote !in r.value
  {
    FindFailsIffAbsent(text, Marker);
    var start := Find(text, Marker, 0);
    var end := Find(text, Closer, start);
    if start == -1 || end == -1 then None
    else Some(Normalise(Slice(text, start + |Marker|, end)))
  }

  /** There is a payload exactly when the reply has a marker followed by a
      closer, and it is the text between the two, repaired. */
  lemma PayloadBetweenMarkers(text: string)
    ensures Payload(text).Some? <==> Contains(text, Marker) && Contains(AfterMarker(text), Closer)
    ensures Payload(text).Some? ==> Payload(text).value == Normalise(UpToCloser(AfterMarker(text)))
  {
    FindFailsIffAbsent(text, Marker);
    if Contains(text, Marker) {
      BetweenMarkers(text);
    }
  }

  /** The table read from a reply: the payload decoded, or the empty table
      (the `except` branch at lines 116-119). */
  function ParseReply(content: string, decode: Decoder): (t: Json.Table)
    ensures !Contains(Strip(content), Marker) ==> t == []
  {
    TableOf(Payload(Strip(content)), decode)
  }

  /** `_ask_ai` as the authors evidently meant it, without the preview of
      `prompt` that line 64 reads before line 68 assigns it. The clock is read
      outside the `try`, so its overflow escapes; everything inside the `try`
      ends in a table. */
  function AskAi(text: string, clock: Clock, client: Client, decode: Decoder): (r: Outcome)
    requires ValidClock(clock)
    ensures r.Raised? <==> clock.second == Dates.Date(Dates.MaxYear, 12, 31)
    ensures r.Raised? ==> r.error == OverflowError
  {
    match SentPrompt(Prompts, text, clock)
    case None => Raised(OverflowError)
    case Some(prompt) =>
      match client(prompt)
      case Err(_) => Returned([])
      case Ok(content) => Returned(ParseReply(content, decode))
  }

  /** `_ask_ai` as written: its first statement reads the local `prompt`
      before anything assigns it. */
  function AskAiAsWritten(text: string, clock: Clock, client: Client, decode: Decoder): (r: Outcome)
    ensures r.Raised? && r.error == UnboundLocalError("prompt")
  {
    Raised(UnboundLocalError("prompt"))
  }

  /** The guard of `process`: an empty text or one carrying the failure mark
      is not sent to the model. */
  predicate SkipsModel(text: string) {
    text == "" || Contains(text, Extraction.FailureMark)
  }

  /** `process(filepath)` with the corrected `_ask_ai`. */
  function Process(path: string, libs: Extraction.Libraries, clock: Clock, client: Client, decode: Decoder): Outcome
    requires ValidClock(clock)
  {
    var text := Extraction.ExtractText(path, libs);
    if SkipsModel(text) then Returned([]) else AskAi(text, clock, client, decode)
  }

  /** `process(filepath)` as written. */
  function ProcessAsWritten(path: string, libs: Extraction.Libraries, clock: Clock, client: Client, decode: Decoder): Outcome {
    var text := Extraction.ExtractText(path, libs);
    if SkipsModel(text) then Returned([]) else AskAiAsWritten(text, clock, client, decode)
  }

  /** A skipped text gives the empty table whatever the clock, the model and
      the decoder would have done, in both versions of `_ask_ai`. */
  lemma SkippedTextGivesEmptyTable(path: string, libs: Extraction.Libraries, clock: Clock, client: Client, decode: Decoder)
    requires ValidClock(clock) && SkipsModel(Extraction.ExtractText(path, libs))
    ensures Process(path, libs, clock, client, decode) == Returned([])
    ensures ProcessAsWritten(path, libs, clock, client, decode) == Returned([])
  {
  }

  /** A failed extraction never reaches the model. */
  lemma FailedExtractionGivesEmptyTable(path: string, libs: Extraction.Libraries, clock: Clock, client: Client, decode: Decoder)
    requires ValidClock(clock) && Extraction.Failed(path, libs)
    ensures Process(path, libs, clock, client, decode) == Returned([])
  {
    Extraction.FailureIsMarked(path, libs);
  }

  /** The corrected `process` raises only when the text reaches the model
      and the clock stands at the last representable day. */
  lemma ProcessRaisesIff(path: string, libs: Extraction.Libraries, clock: Clock, client: Client, decode: Decoder)
    requires ValidClock(clock)
    ensures Process(path, libs, clock, client, decode).Raised? <==>
      !SkipsModel(Extraction.ExtractText(path, libs)) && clock.second == Dates.Date(Dates.MaxYear, 12, 31)
    ensures Process(path, libs, clock, client, decode).Raised? ==>
      Process(path, libs, clock, client, decode).error == OverflowError
  {
  }

  /** When the model's call fails or its reply holds no decodable payload,
      the corrected `process` still ends with the empty table. */
  lemma UnusableReplyGivesEmptyTable(path: string, libs: Extraction.Libraries, clock: Clock, client: Client, decode: Decoder)
    requires ValidClock(clock) && SentPrompt(Prompts, Extraction.ExtractText(path, libs), clock).Some?
    requires var reply := client(SentPrompt(Prompts, Extraction.ExtractText(path, libs), clock).value);
      reply.Err? || Payload(Strip(reply.value)).None? || decode(Payload(Strip(reply.value)).value).None?
    ensures Process(path, libs, clock, client, decode) == Returned([])
  {
  }

  /** As written, `process` raises exactly when the text would have been
      sent to the model, and never consults the model, the clock or the
      decoder. */
  lemma AsWrittenRaisesIff(path: string, libs: Extraction.Libraries, clock: Clock, client: Client, decode: Decoder,
                           clock2: Clock, client2: Client, decode2: Decoder)
    ensures ProcessAsWritten(path, libs, clock, client, decode).Raised? <==> !SkipsModel(Extraction.ExtractText(path, libs))
    ensures ProcessAsWritten(path, libs, clock, client, decode) == ProcessAsWritten(path, libs, clock2, client2, decode2)
  {
  }

  /** The defect: for a readable, unmarked document and a clock short of the
      last day, the code as written raises `UnboundLocalError` where the
      corrected code returns a table. */
  lemma AsWrittenDiffers(path: string, libs: Extraction.Libraries, clock: Clock, client: Client, decode: Decoder)
    requires ValidClock(clock) && clock.second != Dates.Date(Dates.MaxYear, 12, 31)
    requires !SkipsModel(Extraction.ExtractText(path, libs))
    ensures ProcessAsWritten(path, libs, clock, client, decode) == Raised(UnboundLocalError("prompt"))
    ensures Process(path, libs, clock, client, decode).Returned?
  {
  }
}
