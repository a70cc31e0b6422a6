/** `CalendarDataProcessor._extract_text`, which is the same in both
    processors: the lowercased extension selects a reader, and every failure
    is turned into a text that starts with `[❌` instead of an exception. */
module Extraction {
  import opened Results
  import opened PyStrings
  import Paths

  /** The readers `_extract_text` chooses between. */
  datatype Strategy = PlainText | Word | Spreadsheet | Ocr | Pdf

  /** The foreign libraries, as functions of the file path. Each returns what
      the library produced or `Err(str(e))` for the exception it raised:
      `open(path, encoding="utf-8").read()`, the paragraph texts of
      `docx.Document(path)`, `pd.read_excel(path).to_string(index=False)`,
      the lines of `easyocr` `readtext(path, detail=0)`, and the text of each
      page of `fitz.open(path)`. */
  datatype Libraries = Libraries(
    readUtf8: string -> Result<string>,
    paragraphs: string -> Result<seq<string>>,
    sheetText: string -> Result<string>,
    ocrLines: string -> Result<seq<string>>,
    pageTexts: string -> Result<seq<string>>)

  /** What `process` looks for to tell a failure from a text. */
  const FailureMark: string := "[❌"

  /** The text returned for an extension no reader handles, up to the extension. */
  const UnsupportedPrefix: string := "[❌ 지원하지 않는 파일 형식: "

  /** The text returned when a reader raised, up to the exception text. */
  const ErrorPrefix: string := "[❌ 텍스트 추출 오류: "

  /** The extensions the dispatch accepts, after lowercasing. */
  const Supported: set<string> := {".txt", ".docx", ".xlsx", ".xls", ".jpg", ".jpeg", ".png", ".pdf"}

  /** The `if`/`elif` chain on the lowercased extension. */
  function StrategyFor(ext: string): (r: Option<Strategy>)
    ensures r.Some? <==> ext in Supported
  {
    if ext == ".txt" then Some(PlainText)
    else if ext == ".docx" then Some(Word)
    else if ext == ".xlsx" || ext == ".xls" then Some(Spreadsheet)
    else if ext == ".jpg" || ext == ".jpeg" || ext == ".png" then Some(Ocr)
    else if ext == ".pdf" then Some(Pdf)
    else None
  }

  /** Running one reader, with the joins the source applies to its pieces. */
  function Read(st: Strategy, path: string, libs: Libraries): Result<string>
  {
    match st
    case PlainText => libs.readUtf8(path)
    case Word =>
      (match libs.paragraphs(path)
       case Ok(ps) => Ok(Join("\n", ps))
       case Err(e) => Err(e))
    case Spreadsheet => libs.sheetText(path)
    case Ocr =>
      (match libs.ocrLines(path)
       case Ok(ls) => Ok(Join("\n", ls))
       case Err(e) => Err(e))
    case Pdf =>
      (match libs.pageTexts(path)
       case Ok(ps) => Ok(Join("", ps))
       case Err(e) => Err(e))
  }

  /** The lowercased extension of the path. */
  function LowerExt(path: string): string {
    Lower(Paths.Ext(path))
  }

  /** `_extract_text(path)`. It never raises: an unsupported extension and a
      reader's exception both come back as a marked text. */
  function ExtractText(path: string, libs: Libraries): (text: string)
    ensures LowerExt(path) !in Supported ==> text == UnsupportedPrefix + LowerExt(path) + "]"
    ensures LowerExt(path) in Supported ==>
      match Read(StrategyFor(LowerExt(path)).value, path, libs)
      case Ok(t) => text == t
      case Err(e) => text == ErrorPrefix + e + "]"
  {
    var ext := LowerExt(path);
    match StrategyFor(ext)
    case None => UnsupportedPrefix + ext + "]"
    case Some(st) =>
      match Read(st, path, libs)
      case Ok(t) => t
      case Err(e) => ErrorPrefix + e + "]"
  }

  /** Extraction failed: no reader for the extension, or the reader raised. */
  predicate Failed(path: string, libs: Libraries) {
    var st := StrategyFor(LowerExt(path));
    st.None? || Read(st.value, path, libs).Err?
  }

  lemma ContainsPrefix(s: string, p: string)
    requires |p| <= |s| && s[..|p|] == p
    ensures Contains(s, p)
  {
    assert IsAt(s, p, 0);
  }

  /** A text that starts with the mark contains it and is not empty. */
  lemma MarkedText(prefix: string, rest: string)
    requires |prefix| >= |FailureMark| && prefix[..|FailureMark|] == FailureMark
    ensures Contains(prefix + rest, FailureMark) && prefix + rest != ""
  {
    assert (prefix + rest)[..|FailureMark|] == FailureMark;
    ContainsPrefix(prefix + rest, FailureMark);
  }

  /** Every failure text carries the mark, and is therefore never empty. */
  lemma FailureIsMarked(path: string, libs: Libraries)
    requires Failed(path, libs)
    ensures Contains(ExtractText(path, libs), FailureMark)
    ensures ExtractText(path, libs) != ""
  {
    var ext := LowerExt(path);
    if StrategyFor(ext).None? {
      assert ExtractText(path, libs) == UnsupportedPrefix + (ext + "]");
      MarkedText(UnsupportedPrefix, ext + "]");
    } else {
      var e := Read(StrategyFor(ext).value, path, libs).message;
      assert ExtractText(path, libs) == ErrorPrefix + (e + "]");
      MarkedText(ErrorPrefix, e + "]");
    }
  }

  /** The mark appears in the result exactly when extraction failed or the
      document's own text contains it: `process` cannot tell the two apart. */
  lemma MarkedIff(path: string, libs: Libraries)
    ensures Contains(ExtractText(path, libs), FailureMark) <==>
      Failed(path, libs) || Contains(Read(StrategyFor(LowerExt(path)).value, path, libs).value, FailureMark)
  {
    if Failed(path, libs) {
      FailureIsMarked(path, libs);
    }
  }

  /** Dispatch ignores the case of the extension: two paths that share a stem
      and whose extension names agree up to ASCII case select the same reader,
      or are refused with the same text. */
  lemma CaseInsensitive(stem: string, name1: string, name2: string, libs: Libraries)
    requires |stem| > 0 && stem[|stem| - 1] != '/' && stem[|stem| - 1] != '.'
    requires forall k :: 0 <= k < |name1| ==> name1[k] != '.' && name1[k] != '/'
    requires forall k :: 0 <= k < |name2| ==> name2[k] != '.' && name2[k] != '/'
    requires Lower(name1) == Lower(name2)
    ensures StrategyFor(LowerExt(stem + "." + name1)) == StrategyFor(LowerExt(stem + "." + name2))
    ensures StrategyFor(LowerExt(stem + "." + name1)).None? ==>
      ExtractText(stem + "." + name1, libs) == ExtractText(stem + "." + name2, libs)
  {
    Paths.ExtOfAppended(stem, name1);
    Paths.ExtOfAppended(stem, name2);
    assert Lower("." + name1) == "." + Lower(name1);
    assert Lower("." + name2) == "." + Lower(name2);
  }
}
