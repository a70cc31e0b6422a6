# Calendar data processor, modelled in Dafny

The repository turns a document into a table of schedule entries. The work
is done by `CalendarDataProcessor`, which exists in two variants:

- `extractor/dataProcessor_gpt.py` talks to an OpenAI chat model.
- `extractor/dataProcessor.py` talks to a Gemini model.

Both variants have the same three steps:

1. `_extract_text` reads the file with the reader its lowercased extension
   selects: UTF-8 text, Word paragraphs, a spreadsheet, OCR lines or PDF
   pages. It reports every failure as a text starting with `[❌`.
2. `_ask_ai` sends the text to the model, inside a prompt that carries today's
   and tomorrow's dates. It cuts the `pd.DataFrame([...])` literal out of the
   reply, repairs it into JSON (brackets, trailing commas, quotes) and decodes
   it. Every failure inside its `try` ends in the empty table.
3. `process` runs the two steps and skips the model for failure texts.

The model is pure: datatypes, functions and lemmas, one module per concern.

| file | module | what it holds |
|---|---|---|
| `results.dfy` | `Results` | `Option` and `Result` |
| `pystrings.dfy` | `PyStrings` | Python `find`, `in`, slicing, `split`, `join`, `strip`, `rstrip`, `replace`, `lower` |
| `paths.dfy` | `Paths` | POSIX `os.path.splitext` |
| `dates.dfy` | `Dates` | `datetime` dates, `+ timedelta(days=1)` with its overflow, `strftime("%Y-%m-%d")` and reading it back |
| `json.dfy` | `Json` | a decoder for arrays of flat string objects and the matching encoder |
| `extraction.dfy` | `Extraction` | `_extract_text`, shared by both variants |
| `pipeline.dfy` | `Pipeline` | what both `_ask_ai` share: the clock, the outcome of a call, the prompt template, the payload repair, the marker and the closer |
| `gpt_processor.dfy` | `GptProcessor` | the GPT variant, as written and corrected |
| `gemini_processor.dfy` | `GeminiProcessor` | the Gemini variant |
| `replies.dfy` | `Replies` | replies laid out as the prompts show them (marker, whitespace, single-quoted objects, whitespace, closer), with text such as a code fence around them, and what both variants read from them |
| `variants.dfy` | `Variants` | how the two variants differ, and end-to-end results |

How the outside world appears in the model:

- **Foreign libraries.** Readers, the model client and `json.loads` with
  `pd.DataFrame` are parameters.
  - `Extraction.Libraries` holds one function per reader, returning a text or
    the exception's message.
  - The client is `string -> Result<string>`: the prompt in, the reply text
    or a failure out.
  - The decoder is `string -> Option<Table>`. `Json.Decode` is one concrete
    decoder, proved against `Json.Encode`.
- **Clock.** The two `datetime.now()` calls are the two readings of a
  `Clock`: `today` comes from the first, `tomorrow` from the day after the
  second.
- **Exceptions.** An exception that leaves `process` is a `Raised` outcome.
  An exception caught by `_ask_ai` ends in `Returned([])`, the empty table.

## Model

| member | source | states |
|---|---|---|
| PyStrings.Find | extractor/dataProcessor_gpt.py:105-106 | `str.find` gives -1 exactly when no occurrence lies at or after the start (negative starts count from the end), and otherwise the first occurrence from there |
| PyStrings.FindFailsIffAbsent | extractor/dataProcessor_gpt.py:108 | `find` from 0 answers -1 exactly when `sub in s` is false |
| PyStrings.Slice | extractor/dataProcessor_gpt.py:111 | Python slicing with clamped bounds: the substring between the bounds when both are inside, the rest of the string when only the upper bound is past the end, and the empty string when the bounds cross or the lower one is past the end |
| PyStrings.Join | extractor/dataProcessor_gpt.py:35-47 | `sep.join(parts)` as the text extraction uses it for paragraphs, table rows and pages; it has no contract of its own, and `PyStrings.Split`'s ensures `Join(sep, parts) == s` states what it means: joining the parts of a split restores the string |
| PyStrings.Split | extractor/dataProcessor.py:93 | `split(sep, maxsplit)` gives at least one and at most `maxsplit + 1` parts; no part but the last holds `sep`, nor does the last when the limit was not reached; with more than one part the first is the text before the first `sep`; joining the parts with `sep` gives back the string |
| PyStrings.SplitOnce | extractor/dataProcessor.py:93 | `split(sep, 1)` gives two parts exactly when `sep` occurs: what precedes and what follows its first occurrence |
| PyStrings.SplitHead | extractor/dataProcessor.py:93 | the first part of an unlimited split is the text before the first separator, or all of it |
| PyStrings.TrimStart | extractor/dataProcessor_gpt.py:99 | the result is a suffix of the input; what was dropped is all in the set, and the result does not start with a character of the set |
| PyStrings.TrimEnd | extractor/dataProcessor_gpt.py:112 | `rstrip(",")`: the result is a prefix of the input; what was dropped is all in the set, and the result does not end with a character of the set |
| PyStrings.StripIsTrimmedSlice | extractor/dataProcessor_gpt.py:99 | `strip()` returns a slice of its input with only whitespace outside it and no whitespace at either end |
| PyStrings.StripTrimmed | extractor/dataProcessor.py:91 | a text that does not start or end with whitespace is its own strip |
| PyStrings.StripPadded | extractor/dataProcessor.py:94 | `strip()` removes whitespace around a text that does not itself start or end with whitespace, and nothing else |
| PyStrings.TrimStartConcat | extractor/dataProcessor_gpt.py:99 | stripping the front of `x + y`, where `y` starts with a kept character, strips only `x` |
| PyStrings.TrimEndConcat | extractor/dataProcessor_gpt.py:99 | stripping the end of `x + y`, where `x` ends with a kept character, strips only `y` |
| PyStrings.StripAround | extractor/dataProcessor_gpt.py:99 | `strip()` of a text around a core that starts and ends with non-whitespace removes only the leading whitespace of the text before it and the trailing whitespace of the text after it |
| PyStrings.Strip | extractor/dataProcessor_gpt.py:99 | Python's `strip()` with Python's whitespace set; it has no contract of its own, and `PyStrings.StripIsTrimmedSlice` states what it returns |
| PyStrings.ReplaceChar | extractor/dataProcessor_gpt.py:113 | `replace("'", '"')` keeps the length and replaces exactly the occurrences of the one character |
| PyStrings.ReplaceCharRemoves | extractor/dataProcessor_gpt.py:113 | after the replacement no single quote is left |
| PyStrings.ReplaceCharBack | extractor/dataProcessor.py:95 | replacing `a` by a `b` that the text lacks, then `b` by `a`, restores the text |
| PyStrings.Lower | extractor/dataProcessor_gpt.py:25 | `lower()` keeps the length and lowers each ASCII capital, leaving every other character alone |
| Paths.RFind | extractor/dataProcessor_gpt.py:25 | the last index of a character, or -1 when it does not occur |
| Paths.SplitExt | extractor/dataProcessor_gpt.py:25 | POSIX `os.path.splitext`, with its rule that dots leading the last path component do not start an extension; it has no contract of its own, and `Paths.SplitExtShape`, `Paths.ExtOfAppended` and `Paths.LeadingDotsNoExt` state what it returns |
| Paths.RFindIs | extractor/dataProcessor_gpt.py:25 | an index holding the character, with none after it, is the last index (and -1 when none at all occurs) |
| Paths.SplitExtShape | extractor/dataProcessor_gpt.py:25 | `root + ext` is the path; the extension is empty or a dot followed by neither dots nor slashes |
| Paths.ExtOfAppended | extractor/dataProcessor.py:27 | `stem + "." + name` has extension `"." + name` when the name has no dot or slash and the stem does not end in one |
| Paths.LeadingDotsNoExt | extractor/dataProcessor_gpt.py:25 | a last component made of one or more dots followed by a name without dots (`.txt`, `dir/.bashrc`, `..txt`) has the empty extension, so such a file is unsupported |
| Dates.NextDay | extractor/dataProcessor_gpt.py:66 | `+ timedelta(days=1)` raises exactly on 9999-12-31; otherwise the result is a valid date later in calendar order |
| Dates.DaysInYear | extractor/dataProcessor_gpt.py:66 | the Gregorian day count adds 366 days across a leap year and 365 otherwise |
| Dates.NextDayIsOneDayLater | extractor/dataProcessor.py:61 | the next day's ordinal is exactly one more than the date's |
| Dates.Digits | extractor/dataProcessor_gpt.py:65 | `n` padded to a fixed width is exactly that many decimal digits |
| Dates.Format | extractor/dataProcessor_gpt.py:65 | `strftime("%Y-%m-%d")` is ten characters with dashes at positions 4 and 7 |
| Dates.FormatRoundTrip | extractor/dataProcessor.py:60 | a formatted date reads back as itself |
| Dates.FormatInjective | extractor/dataProcessor_gpt.py:65 | different dates format differently |
| Json.DecodeEncode | extractor/dataProcessor_gpt.py:113-114 | decoding the JSON text of flat objects (as `json.dumps(..., ensure_ascii=False)` writes it) gives back their rows, members stored in order |
| Json.Decode | extractor/dataProcessor_gpt.py:113 | `json.loads` for arrays of flat string objects; it has no contract of its own, and `Json.DecodeEncode` states what it returns for the JSON text of such objects |
| Extraction.StrategyFor | extractor/dataProcessor_gpt.py:29-50 | the dispatch selects a reader exactly for the eight supported extensions |
| Extraction.LowerExt | extractor/dataProcessor_gpt.py:25 | `os.path.splitext(filepath)[1].lower()`, by `Paths.SplitExt` and `PyStrings.Lower` |
| Extraction.Read | extractor/dataProcessor_gpt.py:29-47 | runs the selected reader, joining Word paragraphs and OCR lines with newlines and PDF pages with nothing; a reader's exception stays an error with its message |
| Extraction.ExtractText | extractor/dataProcessor_gpt.py:24-57 | an unsupported extension gives `[❌ 지원하지 않는 파일 형식: ext]`; a reader's exception gives `[❌ 텍스트 추출 오류: e]`; otherwise the reader's text |
| Extraction.FailureIsMarked | extractor/dataProcessor.py:50-54 | every failure text contains `[❌` and is not empty |
| Extraction.MarkedIff | extractor/dataProcessor_gpt.py:134 | the text carries `[❌` exactly when extraction failed or the document itself contains it |
| Extraction.CaseInsensitive | extractor/dataProcessor.py:27 | extensions that differ only in ASCII case select the same reader and are refused with the same text |
| Pipeline.Normalise | extractor/dataProcessor_gpt.py:111-113 | the repaired payload is bracketed, has no single quote and no comma before its closing bracket |
| Pipeline.NormaliseBraced | extractor/dataProcessor.py:94-95 | for a payload that is empty or runs from `{` to `}`, the repair only adds the brackets and swaps the quotes |
| Pipeline.TableOf | extractor/dataProcessor_gpt.py:113-119 | no payload or an undecodable payload gives the empty table; otherwise the decoded table |
| Pipeline.CloserAfterMarker | extractor/dataProcessor_gpt.py:105-106 | a closer found from the marker's position starts after the whole marker |
| Pipeline.FindCloserAfterMarker | extractor/dataProcessor_gpt.py:106 | searching for the closer from the marker's position is searching in the text after the marker, shifted |
| Pipeline.AfterMarker | extractor/dataProcessor.py:93 | the text after the first marker: a suffix that the marker precedes, with no earlier marker |
| Pipeline.UpToCloser | extractor/dataProcessor.py:93 | a prefix without a closer; shorter than its input exactly when the input holds a closer, which then follows it |
| Pipeline.SplitAtCloser | extractor/dataProcessor.py:93 | `split("])")[0]` is the text before the first closer |
| Pipeline.UpToCloserOf | extractor/dataProcessor.py:93 | a text without `]` followed by a closer is cut exactly at that closer |
| Pipeline.NoCloserWithout | extractor/dataProcessor.py:93 | a text without `]` holds no closer and is not cut |
| Pipeline.FirstMarker | extractor/dataProcessor_gpt.py:105 | when no marker starts in the text before a marker, that marker is the first one, and what follows it is the rest |
| Pipeline.NoLeadLetter | extractor/dataProcessor_gpt.py:105 | a text without `p` is `MarkerFree`: no marker starts in it, so any preamble without that letter meets the round trips' condition on the text before the reply |
| Pipeline.MarkerFreeSuffix | extractor/dataProcessor_gpt.py:105 | dropping characters from the front of a text in which no marker starts leaves one in which no marker starts |
| Pipeline.BetweenMarkers | extractor/dataProcessor_gpt.py:105-111 | the closer search fails exactly when no closer follows the marker; otherwise the slice is the text after the marker up to its first closer |
| Pipeline.SentPrompt | extractor/dataProcessor_gpt.py:65-87 | building the prompt fails exactly when the second clock reading is 9999-12-31, where `+ timedelta(days=1)` overflows |
| Pipeline.PromptCarriesDates | extractor/dataProcessor_gpt.py:65-87 | the prompt holds today at two fixed places and tomorrow at one; they read back as the first clock reading and the day after the second; the document closes the prompt |
| Pipeline.TomorrowFollowsToday | extractor/dataProcessor.py:60-61 | with both readings on one day, the prompt's tomorrow is one day after its today |
| Pipeline.EmptyTextPrompt | extractor/dataProcessor.py:85 | with an empty document the prompt ends with the template's closing text |
| GptProcessor.PayloadBetweenMarkers | extractor/dataProcessor_gpt.py:105-112 | a payload exists exactly when a marker is followed by a closer; it is the text between them, repaired |
| GptProcessor.Payload | extractor/dataProcessor_gpt.py:105-112 | a reply without the marker has no payload; a payload is bracketed and holds no single quote |
| GptProcessor.ParseReply | extractor/dataProcessor_gpt.py:99-119 | a reply whose stripped text lacks the marker gives the empty table |
| GptProcessor.AskAi | extractor/dataProcessor_gpt.py:65-119 | corrected `_ask_ai` raises exactly on a second clock reading of 9999-12-31, and then raises `OverflowError`; otherwise it returns a table |
| GptProcessor.AskAiAsWritten | extractor/dataProcessor_gpt.py:64 | `_ask_ai` as written raises `UnboundLocalError` for `prompt` on every call |
| GptProcessor.SkipsModel | extractor/dataProcessor_gpt.py:134 | the guard: an empty text or one containing `[❌`; a predicate without a contract |
| GptProcessor.Process | extractor/dataProcessor_gpt.py:121-151 | corrected `process`; it has no contract of its own, and the lemmas below and `Variants.GptEndToEnd` state its results |
| GptProcessor.ProcessAsWritten | extractor/dataProcessor_gpt.py:121-151 | `process` as written; it has no contract of its own, and `GptProcessor.AsWrittenRaisesIff` and `GptProcessor.AsWrittenDiffers` state its results |
| GptProcessor.SkippedTextGivesEmptyTable | extractor/dataProcessor_gpt.py:134-136 | an empty or marked text gives the empty table, as written and corrected, whatever the clock, model and decoder |
| GptProcessor.FailedExtractionGivesEmptyTable | extractor/dataProcessor_gpt.py:132-136 | a failed extraction never reaches the model |
| GptProcessor.ProcessRaisesIff | extractor/dataProcessor_gpt.py:66 | corrected `process` raises exactly when the text reaches the model on 9999-12-31, and then raises `OverflowError` |
| GptProcessor.UnusableReplyGivesEmptyTable | extractor/dataProcessor_gpt.py:90-119 | a failed call, a reply without payload or an undecodable payload gives the empty table |
| GptProcessor.AsWrittenRaisesIff | extractor/dataProcessor_gpt.py:64 | as written, `process` raises exactly when the text would reach the model, whatever the clock, model and decoder |
| GptProcessor.AsWrittenDiffers | extractor/dataProcessor_gpt.py:64-68 | for an unskipped text before the last day, the code as written raises `UnboundLocalError` on `prompt` and the corrected code returns a table |
| GeminiProcessor.PayloadAfterMarker | extractor/dataProcessor.py:93-94 | a payload exists exactly when a marker occurs; it is the text after it up to the first closer or the end, repaired |
| GeminiProcessor.Payload | extractor/dataProcessor.py:93-94 | a payload exists exactly when the reply holds the marker; it is bracketed and holds no single quote |
| GeminiProcessor.ParseReply | extractor/dataProcessor.py:91-102 | a reply whose stripped text lacks the marker gives the empty table |
| GeminiProcessor.AskAi | extractor/dataProcessor.py:57-102 | `_ask_ai` raises exactly on a second clock reading of 9999-12-31, and then raises `OverflowError`; otherwise it returns a table |
| GeminiProcessor.SkipsModel | extractor/dataProcessor.py:121 | the guard: a text containing `[❌`; a predicate without a contract |
| GeminiProcessor.Process | extractor/dataProcessor.py:105-129 | `process`; it has no contract of its own, and the lemmas below and `Variants.GeminiEndToEnd` state its results |
| GeminiProcessor.MarkedTextGivesEmptyTable | extractor/dataProcessor.py:121-123 | a marked text or failed extraction gives the empty table whatever the clock, model and decoder |
| GeminiProcessor.ProcessRaisesIff | extractor/dataProcessor.py:61 | `process` raises exactly when an unmarked text meets a clock on 9999-12-31, and then raises `OverflowError` |
| GeminiProcessor.EmptyTextReachesModel | extractor/dataProcessor.py:121-125 | an empty text is sent to the model, in a prompt ending with the document header |
| Replies.Table | extractor/dataProcessor.py:77 | one row per entry, holding its `start`, `end` and `event` |
| Replies.FieldsEncodable | extractor/dataProcessor.py:77 | the columns of a writable entry need no JSON escapes |
| Replies.BodyAvoids | extractor/dataProcessor.py:93-95 | the objects of writable entries hold no `]` and no single quote |
| Replies.LiteralBraced | extractor/dataProcessor_gpt.py:77-79 | the model's literal is empty or runs from `{` to `}` |
| Replies.LiteralRestored | extractor/dataProcessor_gpt.py:112-113 | bracketing and swapping quotes turns the single-quoted literal into the JSON objects |
| Replies.BodyEncodes | extractor/dataProcessor_gpt.py:112 | the bracketed objects are the JSON text of the rows |
| Replies.RepairedLiteral | extractor/dataProcessor.py:94-95 | repairing the model's literal gives the JSON encoding of its entries |
| Replies.LiteralCut | extractor/dataProcessor.py:93 | the objects, with whitespace around them, end at the closer that follows them |
| Replies.ReplySlices | extractor/dataProcessor.py:93 | in a reply with surrounding text and whitespace around its objects, the first marker is the reply's and the cut gives the objects with that whitespace |
| Replies.ReplyStripped | extractor/dataProcessor_gpt.py:99 | `strip()` of a reply with text around it keeps the reply whole and removes only the whitespace at the start of the text before and at the end of the text after |
| Replies.TrimmedMarkerFree | extractor/dataProcessor_gpt.py:99-105 | stripping the front of text in which no marker starts leaves text in which no marker starts |
| Replies.PaddedLiteral | extractor/dataProcessor.py:94-95 | repairing the objects with whitespace around them gives the JSON encoding of the entries |
| Replies.ReplyPayload | extractor/dataProcessor_gpt.py:105-112 | both variants find the JSON encoding of the entries in the reply |
| Replies.EncodedTable | extractor/dataProcessor_gpt.py:113-114 | that encoding decodes to the table of the entries |
| Replies.GptReplyRoundTrip | extractor/dataProcessor_gpt.py:99-114 | a reply in the requested form, with any whitespace around its objects, any text before it in which no marker starts and any text after it, whitespace at either end included, reads back as the table of its entries in the GPT variant |
| Replies.GeminiReplyRoundTrip | extractor/dataProcessor.py:91-96 | the same reply reads back as the same table in the Gemini variant |
| Replies.FenceMarkerFree | extractor/dataProcessor.py:75 | the code fence's opening holds no marker, although it holds a `p` |
| Replies.FencedReply | extractor/dataProcessor.py:74-79 | the reply laid out exactly as the Gemini prompt shows it, fenced and over three lines, reads back as its entries in both variants |
| Variants.PayloadsAgree | extractor/dataProcessor.py:93 | where GPT finds a payload Gemini finds the same one; where Gemini finds none, GPT finds none |
| Variants.PayloadsDifferIff | extractor/dataProcessor_gpt.py:105-109 | the two payloads differ exactly when a marker occurs and no closer follows it |
| Variants.GuardsDiffer | extractor/dataProcessor_gpt.py:134 | the GPT guard skips a text exactly when the Gemini guard does or the text is empty |
| Variants.LiteralUnbracketed | extractor/dataProcessor.py:93 | a literal of writable entries holds no `]` |
| Variants.TruncatedStripped | extractor/dataProcessor.py:91 | `strip()` leaves a reply cut off after the literal alone |
| Variants.TruncatedPayloads | extractor/dataProcessor_gpt.py:108-109 | in a reply cut off before its closer, Gemini finds the encoded entries and GPT finds nothing |
| Variants.TruncatedReply | extractor/dataProcessor.py:93-96 | such a reply gives the entries' table in Gemini and the empty table in GPT |
| Variants.GptEndToEnd | extractor/dataProcessor_gpt.py:121-151 | an unskipped document, a clock before the last day and a reply in the requested form (as in `Replies.GptReplyRoundTrip`) give the entries' table from corrected `process` |
| Variants.GeminiEndToEnd | extractor/dataProcessor.py:105-129 | the same in the Gemini variant |

## Behaviour worth knowing

- The GPT `process` skips the model for an empty text as well as for a
  failure text (extractor/dataProcessor_gpt.py:134; `GptProcessor.SkipsModel`,
  `Variants.GuardsDiffer`). The Gemini `process` checks only for the failure
  mark (extractor/dataProcessor.py:121), so it sends an empty text to the
  model (`GeminiProcessor.EmptyTextReachesModel`).
- The Gemini parser needs only the opening marker
  (extractor/dataProcessor.py:91-93): without a closer it takes the rest of
  the reply (`Variants.TruncatedReply`). The GPT parser needs both
  (extractor/dataProcessor_gpt.py:105-109).
- Both variants call `datetime.now()` twice, once for `today` and once for
  `tomorrow` (extractor/dataProcessor_gpt.py:65-66,
  extractor/dataProcessor.py:60-61). Adding a day to the second reading
  raises `OverflowError` on 9999-12-31, outside the `try`
  (`GptProcessor.ProcessRaisesIff`, `GeminiProcessor.ProcessRaisesIff`).
- `os.path.splitext` does not treat dots that lead the file name as the
  start of an extension, so a file named `.txt` or `..txt` has the empty
  extension and is reported as unsupported
  (extractor/dataProcessor_gpt.py:25; `Paths.LeadingDotsNoExt`).
- The GPT `_ask_ai` reads `prompt` before assigning it
  (extractor/dataProcessor_gpt.py:64), so it raises before building a
  prompt or calling the model (see Findings).

## Left out

- Foreign libraries are parameters: `open`, `python-docx`, `pd.read_excel`
  with `to_string`, `easyocr` and PyMuPDF. Their output and exception
  messages are not modelled.
- The model clients (`OpenAI` chat completions and `genai.GenerativeModel`)
  are one function from prompt to reply. The model name, the system message,
  the temperature and API keys from the environment are not modelled.
- A reply whose `content` or `usage` is `None` makes line 99 or 101 of the
  GPT variant raise inside the `try`. The model folds it into the client's
  `Err`, which ends in the empty table as that exception does.
- `json.loads` with `pd.DataFrame` is a decoder parameter. `Json.Decode`
  covers only arrays of flat objects whose strings need no escapes. Column
  order, dtypes and DataFrame methods are not modelled; a table is a list of
  rows.
- `print` output is not modelled. This covers the debug previews, the token
  usage report and the printed reply.
- The HTTP route, `extract_run.py` and the test scripts are not part of this
  model.
- PyStrings.Lower: `str.lower()` is modelled for ASCII letters only.
- Extraction.LowerExt: the same, since it lowers with `PyStrings.Lower`.
- Paths.SplitExt follows POSIX `os.path.splitext` only, with `/` as the only
  separator.
- Dates.Format pads the year to four digits; `%Y` below year 1000 depends on
  the platform's C library.
- Reading a `.txt` file with universal newlines is part of the `readUtf8`
  parameter.
- Replies.GptReplyRoundTrip: the objects in the reply are separated by
  `, ` only. A reply that breaks lines between objects or leaves a comma
  after the last one is not covered, although the repair accepts both.
- Replies.GeminiReplyRoundTrip: the same limit on the objects' layout.
- Replies.FencedReply: the same limit, since it rests on the two round trips.
- Variants.GptEndToEnd: the same limit, since it rests on the GPT round trip.
- Variants.GeminiEndToEnd: the same limit, since it rests on the Gemini
  round trip.
- `Replies` covers replies whose values have no quotes, backslashes, control
  characters or `]`. The model does not say what the repair does to other
  values, beyond the general contracts of `Normalise` and `TableOf`.

## Findings

| source | as written | input that shows it | evidently intended | confidence | as-written member | corrected member |
|---|---|---|---|---|---|---|
| extractor/dataProcessor_gpt.py:64 | the first statement of `_ask_ai` previews `prompt[:500]`, but `prompt` is a local assigned only at line 68, so the call raises `UnboundLocalError` before any request; the statement is outside the `try`, so `process` raises too | any supported file whose text is non-empty and has no `[❌`, e.g. a `.txt` file holding `내일 회의` | print the preview after the prompt is built, so `_ask_ai` sends it and returns the table | high, not executed | GptProcessor.ProcessAsWritten | GptProcessor.Process |
