/** Decoding the table the model replies with. `json.loads` followed by
    `pd.DataFrame(...)` is a library call; the processors take it as a
    parameter of type `string -> Option<Table>`. This module gives one concrete
    decoder for the part of JSON the prompt asks for (an array of flat objects
    whose keys and values are strings without escapes), an encoder writing
    the JSON text of the same values, and the round trip between them. */
module Json {
  import opened Results

  /** One record, as `json.loads` builds it from a flat object. */
  type Row = map<string, string>

  /** The rows of a `pd.DataFrame`; `[]` is the empty `pd.DataFrame()`. */
  type Table = seq<Row>

  /** An object in source order: a list of key/value members. */
  type Members = seq<(string, string)>

  /** JSON's insignificant whitespace. */
  predicate IsJsonSpace(c: char) {
    c == ' ' || c == '\t' || c == '\n' || c == '\r'
  }

  function SkipSpace(s: string): (r: string)
    ensures |r| <= |s|
    ensures |r| > 0 ==> !IsJsonSpace(r[0])
  {
    if |s| > 0 && IsJsonSpace(s[0]) then SkipSpace(s[1..]) else s
  }

  /** A character that stands for itself inside a JSON string literal (no
      quote, no backslash, no control character). */
  predicate IsPlain(c: char) {
    c != '"' && c != '\\' && c as int >= 0x20
  }

  predicate AllPlain(s: string) {
    forall k :: 0 <= k < |s| ==> IsPlain(s[k])
  }

  /** The length of the longest prefix of plain characters. */
  function PlainLength(s: string): (n: nat)
    ensures n <= |s|
    ensures forall k :: 0 <= k < n ==> IsPlain(s[k])
    ensures n < |s| ==> !IsPlain(s[n])
  {
    if |s| > 0 && IsPlain(s[0]) then 1 + PlainLength(s[1..]) else 0
  }

  /** A string literal at the start of `s`: its contents and the rest of `s`. */
  function ParseString(s: string): (r: Option<(string, string)>)
    ensures r.Some? ==> |r.value.1| < |s|
  {
    if |s| == 0 || s[0] != '"' then None
    else
      var n := PlainLength(s[1..]);
      if n + 1 < |s| && s[n + 1] == '"' then Some((s[1..n + 1], s[n + 2..])) else None
  }

  /** One `"key": "value"` member at the start of `s` and the rest of `s`
      after the whitespace that follows it. */
  function ParseMember(s: string): (r: Option<((string, string), string)>)
    ensures r.Some? ==> |r.value.1| < |s|
  {
    match ParseString(s)
    case None => None
    case Some((key, r1)) =>
      var r2 := SkipSpace(r1);
      if |r2| == 0 || r2[0] != ':' then None
      else match ParseString(SkipSpace(r2[1..]))
        case None => None
        case Some((value, r3)) => Some(((key, value), SkipSpace(r3)))
  }

  /** The members of an object that follow its `{`, stored into `acc` in
      order, so that a repeated key keeps its last value as in `json.loads`. */
  function ParseMembers(s: string, acc: Row): (r: Option<(Row, string)>)
    decreases |s|
    ensures r.Some? ==> |r.value.1| < |s|
  {
    match ParseMember(s)
    case None => None
    case Some((m, r1)) =>
      if |r1| > 0 && r1[0] == ',' then ParseMembers(SkipSpace(r1[1..]), acc[m.0 := m.1])
      else if |r1| > 0 && r1[0] == '}' then Some((acc[m.0 := m.1], r1[1..]))
      else None
  }

  /** An object at the start of `s` and the rest of `s`. */
  function ParseObject(s: string): (r: Option<(Row, string)>)
    ensures r.Some? ==> |r.value.1| < |s|
  {
    if |s| == 0 || s[0] != '{' then None
    else
      var t := SkipSpace(s[1..]);
      if |t| > 0 && t[0] == '}' then Some((map[], t[1..]))
      else ParseMembers(t, map[])
  }

  /** The elements of an array that follow its `[`, appended to `acc`. */
  function ParseElements(s: string, acc: Table): (r: Option<(Table, string)>)
    decreases |s|
  {
    match ParseObject(s)
    case None => None
    case Some((row, r1)) =>
      var r2 := SkipSpace(r1);
      if |r2| > 0 && r2[0] == ',' then ParseElements(SkipSpace(r2[1..]), acc + [row])
      else if |r2| > 0 && r2[0] == ']' then Some((acc + [row], r2[1..]))
      else None
  }

  /** The whole of `s` as an array of flat objects, or `None`. */
  function Decode(s: string): Option<Table>
  {
    var t := SkipSpace(s);
    if |t| == 0 || t[0] != '[' then None
    else
      var u := SkipSpace(t[1..]);
      var parsed: Option<(Table, string)> := if |u| > 0 && u[0] == ']' then Some(([], u[1..])) else ParseElements(u, []);
      match parsed
      case None => None
      case Some((rows, rest)) => if SkipSpace(rest) == "" then Some(rows) else None
  }

  function EncodeString(v: string): string {
    "\"" + v + "\""
  }

  function EncodeMember(m: (string, string)): string {
    EncodeString(m.0) + (": " + EncodeString(m.1))
  }

  function EncodeMemberList(ms: Members): string
    requires |ms| > 0
  {
    if |ms| == 1 then EncodeMember(ms[0]) else EncodeMember(ms[0]) + (", " + EncodeMemberList(ms[1..]))
  }

  /** The JSON text of one object, members separated by `, ` and keys by `: `. */
  function EncodeObject(ms: Members): string {
    "{" + ((if |ms| == 0 then "" else EncodeMemberList(ms)) + "}")
  }

  function EncodeObjectList(rows: seq<Members>): string
    requires |rows| > 0
  {
    if |rows| == 1 then EncodeObject(rows[0]) else EncodeObject(rows[0]) + (", " + EncodeObjectList(rows[1..]))
  }

  /** The JSON text of a list of objects, written as
      `json.dumps(rows, ensure_ascii=False)` writes it for values that need
      no escapes. */
  function Encode(rows: seq<Members>): string {
    "[" + ((if |rows| == 0 then "" else EncodeObjectList(rows)) + "]")
  }

  /** Storing members in order into a dictionary. */
  function Store(acc: Row, ms: Members): Row
    decreases |ms|
  {
    if |ms| == 0 then acc else Store(acc[ms[0].0 := ms[0].1], ms[1..])
  }

  function ToRow(ms: Members): Row {
    Store(map[], ms)
  }

  function ToTable(rows: seq<Members>): Table {
    seq(|rows|, i requires 0 <= i < |rows| => ToRow(rows[i]))
  }

  /** Every key and value can stand unescaped in a string literal. */
  predicate Encodable(ms: Members) {
    forall k :: 0 <= k < |ms| ==> AllPlain(ms[k].0) && AllPlain(ms[k].1)
  }

  lemma Assoc(a: string, b: string, c: string)
    ensures (a + b) + c == a + (b + c)
  {
  }

  lemma {:induction false} PlainLengthOfLiteral(v: string, rest: string)
    requires AllPlain(v)
    ensures PlainLength(v + ("\"" + rest)) == |v|
  {
    if |v| > 0 {
      assert (v + ("\"" + rest))[1..] == v[1..] + ("\"" + rest);
      PlainLengthOfLiteral(v[1..], rest);
    }
  }

  lemma ParseStringEncoded(v: string, rest: string)
    requires AllPlain(v)
    ensures ParseString(EncodeString(v) + rest) == Some((v, rest))
  {
    var s := EncodeString(v) + rest;
    assert s[1..] == v + ("\"" + rest);
    PlainLengthOfLiteral(v, rest);
    assert s[1..|v| + 1] == v;
    assert s[|v| + 2..] == rest;
  }

  lemma SkipSpaceNone(s: string)
    requires |s| > 0 && !IsJsonSpace(s[0])
    ensures SkipSpace(s) == s
  {
  }

  lemma SkipOneSpace(s: string)
    requires |s| > 0 && !IsJsonSpace(s[0])
    ensures SkipSpace(" " + s) == s
  {
    assert (" " + s)[1..] == s;
  }

  lemma SkipSpaceColon(after: string)
    ensures SkipSpace(": " + after) == ": " + after
    ensures SkipSpace((": " + after)[1..]) == SkipSpace(after)
  {
    assert (": " + after)[1..] == " " + after;
    assert (" " + after)[1..] == after;
  }

  lemma ParseMemberEncoded(m: (string, string), tail: string)
    requires AllPlain(m.0) && AllPlain(m.1)
    requires |tail| > 0 && !IsJsonSpace(tail[0])
    ensures ParseMember(EncodeMember(m) + tail) == Some((m, tail))
  {
    var after := EncodeString(m.1) + tail;
    var r1 := ": " + after;
    Assoc(EncodeString(m.0), ": " + EncodeString(m.1), tail);
    Assoc(": ", EncodeString(m.1), tail);
    ParseStringEncoded(m.0, r1);
    SkipSpaceColon(after);
    SkipSpaceNone(after);
    ParseStringEncoded(m.1, tail);
    SkipSpaceNone(tail);
  }

  /** After a separator `, ` the parser skips the space and goes on. */
  lemma SkipSeparator(next: string)
    requires |next| > 0 && !IsJsonSpace(next[0])
    ensures |", " + next| > 0 && (", " + next)[0] == ','
    ensures SkipSpace((", " + next)[1..]) == next
  {
    assert (", " + next)[1..] == " " + next;
    SkipOneSpace(next);
  }

  lemma ParseMembersStep(s: string, acc: Row, m: (string, string), r1: string)
    requires ParseMember(s) == Some((m, r1))
    requires |r1| > 0 && (r1[0] == ',' || r1[0] == '}')
    ensures ParseMembers(s, acc) ==
      if r1[0] == '}' then Some((acc[m.0 := m.1], r1[1..]))
      else ParseMembers(SkipSpace(r1[1..]), acc[m.0 := m.1])
  {
  }

  lemma {:induction false} ParseMembersEncoded(ms: Members, acc: Row, rest: string)
    requires |ms| > 0 && Encodable(ms)
    ensures ParseMembers(EncodeMemberList(ms) + ("}" + rest), acc) == Some((Store(acc, ms), rest))
    decreases |ms|
  {
    var m := ms[0];
    var acc' := acc[m.0 := m.1];
    assert Store(acc, ms) == Store(acc', ms[1..]);
    if |ms| == 1 {
      ParseMemberEncoded(m, "}" + rest);
      ParseMembersStep(EncodeMember(m) + ("}" + rest), acc, m, "}" + rest);
      assert ("}" + rest)[1..] == rest;
      assert EncodeMemberList(ms) == EncodeMember(m);
    } else {
      var next := EncodeMemberList(ms[1..]) + ("}" + rest);
      Assoc(EncodeMember(m), ", " + EncodeMemberList(ms[1..]), "}" + rest);
      Assoc(", ", EncodeMemberList(ms[1..]), "}" + rest);
      ParseMemberEncoded(m, ", " + next);
      ParseMembersStep(EncodeMember(m) + (", " + next), acc, m, ", " + next);
      assert next[0] == '"';
      SkipSeparator(next);
      ParseMembersEncoded(ms[1..], acc', rest);
    }
  }

  lemma ParseObjectEncoded(ms: Members, rest: string)
    requires Encodable(ms)
    ensures ParseObject(EncodeObject(ms) + rest) == Some((ToRow(ms), rest))
  {
    var s := EncodeObject(ms) + rest;
    if |ms| == 0 {
      assert s[1..] == "}" + rest;
    } else {
      var body := EncodeMemberList(ms) + ("}" + rest);
      Assoc("{", EncodeMemberList(ms) + "}", rest);
      Assoc(EncodeMemberList(ms), "}", rest);
      assert s[1..] == body;
      assert body[0] == '"';
      ParseMembersEncoded(ms, map[], rest);
    }
  }

  lemma ParseElementsStep(s: string, acc: Table, row: Row, r1: string)
    requires ParseObject(s) == Some((row, r1))
    requires |r1| > 0 && (r1[0] == ',' || r1[0] == ']')
    ensures ParseElements(s, acc) ==
      if r1[0] == ']' then Some((acc + [row], r1[1..]))
      else ParseElements(SkipSpace(r1[1..]), acc + [row])
  {
    SkipSpaceNone(r1);
  }

  lemma ToTableCons(rows: seq<Members>)
    requires |rows| > 0
    ensures ToTable(rows) == [ToRow(rows[0])] + ToTable(rows[1..])
  {
  }

  lemma {:induction false} ParseElementsEncoded(rows: seq<Members>, acc: Table, rest: string)
    requires |rows| > 0 && forall i :: 0 <= i < |rows| ==> Encodable(rows[i])
    ensures ParseElements(EncodeObjectList(rows) + ("]" + rest), acc) == Some((acc + ToTable(rows), rest))
    decreases |rows|
  {
    var row := ToRow(rows[0]);
    ToTableCons(rows);
    if |rows| == 1 {
      ParseObjectEncoded(rows[0], "]" + rest);
      ParseElementsStep(EncodeObject(rows[0]) + ("]" + rest), acc, row, "]" + rest);
      assert ("]" + rest)[1..] == rest;
      assert EncodeObjectList(rows) == EncodeObject(rows[0]);
      assert ToTable(rows[1..]) == [];
      assert ToTable(rows) == [row];
    } else {
      var next := EncodeObjectList(rows[1..]) + ("]" + rest);
      Assoc(EncodeObject(rows[0]), ", " + EncodeObjectList(rows[1..]), "]" + rest);
      Assoc(", ", EncodeObjectList(rows[1..]), "]" + rest);
      ParseObjectEncoded(rows[0], ", " + next);
      ParseElementsStep(EncodeObject(rows[0]) + (", " + next), acc, row, ", " + next);
      assert next[0] == '{';
      SkipSeparator(next);
      ParseElementsEncoded(rows[1..], acc + [row], rest);
      TableAssoc(acc, row, ToTable(rows[1..]));
    }
  }

  lemma TableAssoc(acc: Table, row: Row, t: Table)
    ensures acc + [row] + t == acc + ([row] + t)
  {
  }

  /** Decoding the JSON text of the records gives back the records, each member
      stored in order into its row. */
  lemma {:induction false} DecodeEncode(rows: seq<Members>)
    requires forall i :: 0 <= i < |rows| ==> Encodable(rows[i])
    ensures Decode(Encode(rows)) == Some(ToTable(rows))
  {
    var s := Encode(rows);
    SkipSpaceNone(s);
    if |rows| == 0 {
      assert s[1..] == "]";
    } else {
      var body := EncodeObjectList(rows) + ("]" + "");
      assert s[1..] == body;
      assert body[0] == '{';
      SkipSpaceNone(body);
      ParseElementsEncoded(rows, [], "");
      assert ("]" + "")[1..] == "";
      assert [] + ToTable(rows) == ToTable(rows);
      assert SkipSpace("") == "";
    }
  }
}
