/** The Python `str` operations the processors use: `in`, `find`, `split`,
    `join`, `strip`, `rstrip`, `replace` and `lower`, with Python's own
    conventions (`find` returns -1, negative start indices count from the end). */
module PyStrings {

  /** `sub` occurs in `s` at index `i`. */
  predicate IsAt(s: string, sub: string, i: int) {
    0 <= i && i + |sub| <= |s| && s[i..i + |sub|] == sub
  }

  /** Python's `sub in s`. */
  predicate Contains(s: string, sub: string) {
    exists i | 0 <= i <= |s| :: IsAt(s, sub, i)
  }

  /** The first index at or after `i` where `sub` occurs in `s`, or -1. */
  function FindFrom(s: string, sub: string, i: nat): (r: int)
    decreases |s| - i
    ensures r == -1 || (i <= r && IsAt(s, sub, r))
    ensures r == -1 ==> forall j :: i <= j ==> !IsAt(s, sub, j)
    ensures r != -1 ==> forall j :: i <= j < r ==> !IsAt(s, sub, j)
  {
    if i + |sub| > |s| then -1
    else if s[i..i + |sub|] == sub then i
    else FindFrom(s, sub, i + 1)
  }

  /** Where Python starts a search given `start`: negative values count
      from the end of a string of length `n` and are clamped at 0. */
  function StartIndex(start: int, n: nat): nat {
    if start >= 0 then start
    else if start + n >= 0 then start + n
    else 0
  }

  /** Python's `s.find(sub, start)`. */
  function Find(s: string, sub: string, start: int): (r: int)
    ensures r == -1 <==> forall j :: StartIndex(start, |s|) <= j ==> !IsAt(s, sub, j)
    ensures r != -1 ==> StartIndex(start, |s|) <= r && IsAt(s, sub, r)
    ensures r != -1 ==> forall j :: StartIndex(start, |s|) <= j < r ==> !IsAt(s, sub, j)
  {
    FindFrom(s, sub, StartIndex(start, |s|))
  }

  /** `Find` from the start of the string answers Python's `in`. */
  lemma FindFailsIffAbsent(s: string, sub: string)
    ensures Find(s, sub, 0) == -1 <==> !Contains(s, sub)
  {
    if Find(s, sub, 0) != -1 {
      assert IsAt(s, sub, Find(s, sub, 0));
    }
  }

  /** An occurrence in a suffix is an occurrence in the whole string,
      shifted by where the suffix starts. */
  lemma IsAtShifted(s: string, k: nat, sub: string, q: nat)
    requires k <= |s|
    ensures IsAt(s[k..], sub, q) <==> IsAt(s, sub, q + k)
  {
    if q + |sub| <= |s| - k {
      assert s[k..][q..q + |sub|] == s[q + k..q + k + |sub|];
    }
  }

  /** Python's `s[i:j]` for non-negative bounds: clamped to the string, empty
      when `j <= i`. */
  function Slice(s: string, i: nat, j: nat): (r: string)
    ensures i <= j <= |s| ==> r == s[i..j]
    ensures i <= |s| < j ==> r == s[i..]
    ensures j <= i || |s| <= i ==> r == ""
  {
    var hi := if j <= |s| then j else |s|;
    if i < hi then s[i..hi] else ""
  }

  /** Python's `sep.join(parts)`. */
  function Join(sep: string, parts: seq<string>): string
    decreases |parts|
  {
    if |parts| == 0 then ""
    else if |parts| == 1 then parts[0]
    else parts[0] + sep + Join(sep, parts[1..])
  }

  /** Python's `s.split(sep, maxsplit)`; a negative `maxsplit` means no limit.
      Python refuses an empty separator, so `sep` is non-empty. */
  function Split(s: string, sep: string, maxsplit: int): (parts: seq<string>)
    requires |sep| > 0
    decreases |s|
    ensures 1 <= |parts|
    ensures maxsplit >= 0 ==> |parts| <= maxsplit + 1
    ensures forall k :: 0 <= k < |parts| - 1 ==> !Contains(parts[k], sep)
    ensures maxsplit < 0 || |parts| <= maxsplit ==> Find(parts[|parts| - 1], sep, 0) == -1
    ensures |parts| > 1 ==> var i := Find(s, sep, 0); 0 <= i <= |s| && parts[0] == s[..i]
    ensures Join(sep, parts) == s
  {
    var i := FindFrom(s, sep, 0);
    if maxsplit == 0 || i == -1 then
      [s]
    else
      var m := if maxsplit < 0 then maxsplit else maxsplit - 1;
      var rest := Split(s[i + |sep|..], sep, m);
      SplitAround(s, sep, i);
      ConsParts(s[..i], sep, rest);
      [s[..i]] + rest
  }

  /** What precedes the first occurrence of `sep` holds none, and the
      string is that, `sep` and what follows. */
  lemma SplitAround(s: string, sep: string, i: int)
    requires |sep| > 0 && i == FindFrom(s, sep, 0) && i != -1
    ensures Find(s, sep, 0) == i
    ensures !Contains(s[..i], sep)
    ensures s == s[..i] + sep + s[i + |sep|..]
  {
    assert !Contains(s[..i], sep) by {
      forall j | 0 <= j <= i ensures !IsAt(s[..i], sep, j) {
        if j + |sep| <= i {
          IsAtPrefix(s, i, sep, j);
          assert !IsAt(s, sep, j);
        }
      }
    }
    assert s == s[..i] + sep + s[i + |sep|..] by {
      assert s[i..i + |sep|] == sep;
    }
  }

  /** An occurrence that ends within a prefix is an occurrence in the whole. */
  lemma IsAtPrefix(s: string, i: nat, sub: string, j: nat)
    requires j + |sub| <= i <= |s|
    ensures IsAt(s[..i], sub, j) <==> IsAt(s, sub, j)
  {
    assert s[..i][j..j + |sub|] == s[j..j + |sub|];
  }

  /** Putting one more part in front: the joined text grows by the part and
      a separator, and the last part stays the last. */
  lemma ConsParts(head: string, sep: string, rest: seq<string>)
    requires |rest| > 0
    ensures var parts := [head] + rest;
      && parts[0] == head && parts[1..] == rest
      && parts[|parts| - 1] == rest[|rest| - 1]
      && Join(sep, parts) == head + sep + Join(sep, rest)
  {
    var parts := [head] + rest;
    assert parts[1..] == rest;
  }

  /** Splitting at most once either finds no separator and returns the whole
      string, or returns what precedes and what follows its first occurrence. */
  lemma SplitOnce(s: string, sep: string)
    requires |sep| > 0
    ensures var parts := Split(s, sep, 1);
      && (|parts| == 1 <==> !Contains(s, sep))
      && (|parts| == 1 ==> parts[0] == s)
      && (|parts| == 2 ==> var i := Find(s, sep, 0);
            parts[0] == s[..i] && parts[1] == s[i + |sep|..])
  {
    FindFailsIffAbsent(s, sep);
  }

  /** The first piece of an unlimited split is everything before the first
      separator, or the whole string when there is none. */
  lemma SplitHead(s: string, sep: string)
    requires |sep| > 0
    ensures var i := Find(s, sep, 0);
      Split(s, sep, -1)[0] == if i == -1 then s else s[..i]
  {
  }

  /** Python's `str.isspace()` characters: what `strip()` removes. */
  const Whitespace: set<char> := {
    '\t', '\n', '\U{000B}', '\U{000C}', '\r', '\U{001C}', '\U{001D}', '\U{001E}', '\U{001F}',
    ' ', '\U{0085}', '\U{00A0}', '\U{1680}',
    '\U{2000}', '\U{2001}', '\U{2002}', '\U{2003}', '\U{2004}', '\U{2005}', '\U{2006}',
    '\U{2007}', '\U{2008}', '\U{2009}', '\U{200A}',
    '\U{2028}', '\U{2029}', '\U{202F}', '\U{205F}', '\U{3000}'
  }

  /** Python's `s.lstrip(chars)`: drop leading characters in `drop`. */
  function TrimStart(s: string, drop: set<char>): (r: string)
    ensures |r| <= |s| && r == s[|s| - |r|..]
    ensures |r| > 0 ==> r[0] !in drop
    ensures forall k :: 0 <= k < |s| - |r| ==> s[k] in drop
  {
    if |s| > 0 && s[0] in drop then TrimStart(s[1..], drop) else s
  }

  /** Python's `s.rstrip(chars)`: drop trailing characters in `drop`. */
  function TrimEnd(s: string, drop: set<char>): (r: string)
    ensures |r| <= |s| && r == s[..|r|]
    ensures |r| > 0 ==> r[|r| - 1] !in drop
    ensures forall k :: |r| <= k < |s| ==> s[k] in drop
  {
    if |s| > 0 && s[|s| - 1] in drop then TrimEnd(s[..|s| - 1], drop) else s
  }

  /** Python's `s.strip()`. */
  function Strip(s: string): (r: string)
  {
    TrimEnd(TrimStart(s, Whitespace), Whitespace)
  }

  /** `strip()` removes exactly a whitespace prefix and a whitespace suffix:
      the result is a slice of the input that neither starts nor ends with
      whitespace. */
  lemma StripIsTrimmedSlice(s: string)
    ensures exists i, j ::
      && 0 <= i <= j <= |s| && Strip(s) == s[i..j]
      && (forall k :: 0 <= k < i ==> s[k] in Whitespace)
      && (forall k :: j <= k < |s| ==> s[k] in Whitespace)
    ensures |Strip(s)| > 0 ==> Strip(s)[0] !in Whitespace && Strip(s)[|Strip(s)| - 1] !in Whitespace
  {
    var t := TrimStart(s, Whitespace);
    var r := TrimEnd(t, Whitespace);
    var i := |s| - |t|;
    var j := i + |r|;
    assert Strip(s) == r;
    assert r == s[i..j] by {
      assert t == s[i..];
    }
    assert forall k :: 0 <= k < i ==> s[k] in Whitespace;
    assert forall k :: j <= k < |s| ==> s[k] in Whitespace by {
      forall k | j <= k < |s| ensures s[k] in Whitespace {
        assert s[k] == t[k - i];
      }
    }
    assert |r| > 0 ==> r[0] == t[0];
    assert 0 <= i <= j <= |s| && Strip(s) == s[i..j];
  }

  /** Printable ASCII characters other than the space are not whitespace. */
  lemma VisibleNotSpace(c: char)
    requires ' ' < c <= '~'
    ensures c !in Whitespace
  {
  }

  /** A string that has no leading or trailing whitespace is its own strip. */
  lemma StripTrimmed(s: string)
    requires |s| > 0 ==> s[0] !in Whitespace && s[|s| - 1] !in Whitespace
    ensures Strip(s) == s
  {
  }

  /** Every character of `w` is whitespace. */
  predicate Blank(w: string) {
    forall k :: 0 <= k < |w| ==> w[k] in Whitespace
  }

  lemma {:induction false} TrimStartDrops(w: string, rest: string, drop: set<char>)
    requires forall k :: 0 <= k < |w| ==> w[k] in drop
    ensures TrimStart(w + rest, drop) == TrimStart(rest, drop)
    decreases |w|
  {
    if |w| > 0 {
      assert (w + rest)[1..] == w[1..] + rest;
      TrimStartDrops(w[1..], rest, drop);
    } else {
      assert w + rest == rest;
    }
  }

  lemma {:induction false} TrimEndDrops(rest: string, w: string, drop: set<char>)
    requires forall k :: 0 <= k < |w| ==> w[k] in drop
    ensures TrimEnd(rest + w, drop) == TrimEnd(rest, drop)
    decreases |w|
  {
    if |w| > 0 {
      assert (rest + w)[..|rest + w| - 1] == rest + w[..|w| - 1];
      TrimEndDrops(rest, w[..|w| - 1], drop);
    } else {
      assert rest + w == rest;
    }
  }

  /** `strip()` removes whitespace written around a text that does not
      itself start or end with whitespace, and nothing else. */
  lemma StripPadded(before: string, s: string, after: string)
    requires Blank(before) && Blank(after)
    requires |s| > 0 ==> s[0] !in Whitespace && s[|s| - 1] !in Whitespace
    ensures Strip(before + s + after) == s
  {
    var t := s + after;
    assert before + s + after == before + t;
    assert TrimStart(before + t, Whitespace) == TrimStart(t, Whitespace) by {
      TrimStartDrops(before, t, Whitespace);
    }
    if |s| > 0 {
      assert TrimStart(t, Whitespace) == t by {
        assert t[0] == s[0];
      }
      assert TrimEnd(t, Whitespace) == s by {
        TrimEndDrops(s, after, Whitespace);
      }
    } else {
      assert TrimStart(t, Whitespace) == "" by {
        assert t == after + "";
        TrimStartDrops(after, "", Whitespace);
      }
    }
  }

  lemma {:induction false} TrimStartConcat(x: string, y: string, drop: set<char>)
    requires |y| > 0 && y[0] !in drop
    ensures TrimStart(x + y, drop) == TrimStart(x, drop) + y
    decreases |x|
  {
    if |x| == 0 {
      assert x + y == y;
    } else if x[0] in drop {
      assert (x + y)[1..] == x[1..] + y;
      TrimStartConcat(x[1..], y, drop);
    } else {
      assert (x + y)[0] == x[0];
    }
  }

  lemma {:induction false} TrimEndConcat(x: string, y: string, drop: set<char>)
    requires |x| > 0 && x[|x| - 1] !in drop
    ensures TrimEnd(x + y, drop) == x + TrimEnd(y, drop)
    decreases |y|
  {
    if |y| == 0 {
      assert x + y == x;
    } else if y[|y| - 1] in drop {
      assert (x + y)[..|x + y| - 1] == x + y[..|y| - 1];
      TrimEndConcat(x, y[..|y| - 1], drop);
    } else {
      assert (x + y)[|x + y| - 1] == y[|y| - 1];
    }
  }

  /** `strip()` of a text around a core that starts and ends with
      non-whitespace strips only the text before and the text after it. */
  lemma StripAround(prefix: string, core: string, suffix: string)
    requires |core| > 0 && core[0] !in Whitespace && core[|core| - 1] !in Whitespace
    ensures Strip(prefix + core + suffix)
         == TrimStart(prefix, Whitespace) + core + TrimEnd(suffix, Whitespace)
  {
    var front := TrimStart(prefix, Whitespace);
    calc {
      Strip(prefix + core + suffix);
      { assert prefix + core + suffix == prefix + (core + suffix); }
      TrimEnd(TrimStart(prefix + (core + suffix), Whitespace), Whitespace);
      { assert (core + suffix)[0] == core[0];
        TrimStartConcat(prefix, core + suffix, Whitespace); }
      TrimEnd(front + (core + suffix), Whitespace);
      { assert front + (core + suffix) == (front + core) + suffix; }
      TrimEnd((front + core) + suffix, Whitespace);
      { assert (front + core)[|front + core| - 1] == core[|core| - 1];
        TrimEndConcat(front + core, suffix, Whitespace); }
      front + core + TrimEnd(suffix, Whitespace);
    }
  }

  /** Python's `s.replace(a, b)` for one-character `a` and `b`. */
  function ReplaceChar(s: string, a: char, b: char): (r: string)
    ensures |r| == |s|
    ensures forall k :: 0 <= k < |s| ==> r[k] == (if s[k] == a then b else s[k])
  {
    if |s| == 0 then "" else [if s[0] == a then b else s[0]] + ReplaceChar(s[1..], a, b)
  }

  /** After replacing every `a` by a different character, no `a` is left. */
  lemma ReplaceCharRemoves(s: string, a: char, b: char)
    requires a != b
    ensures a !in ReplaceChar(s, a, b)
  {
  }

  /** Replacing distributes over concatenation. */
  lemma ReplaceCharConcat(s: string, t: string, a: char, b: char)
    ensures ReplaceChar(s + t, a, b) == ReplaceChar(s, a, b) + ReplaceChar(t, a, b)
  {
    var l := ReplaceChar(s + t, a, b);
    var r := ReplaceChar(s, a, b) + ReplaceChar(t, a, b);
    forall k | 0 <= k < |l| ensures l[k] == r[k] {
      if k < |s| {
        assert (s + t)[k] == s[k];
        assert r[k] == ReplaceChar(s, a, b)[k];
      } else {
        assert (s + t)[k] == t[k - |s|];
        assert r[k] == ReplaceChar(t, a, b)[k - |s|];
      }
    }
    assert l == r;
  }

  /** Replacing a character other than a bracket commutes with wrapping
      in brackets. */
  lemma ReplaceCharBracketed(s: string, a: char, b: char)
    requires a != '[' && a != ']'
    ensures ReplaceChar("[" + s + "]", a, b) == "[" + ReplaceChar(s, a, b) + "]"
  {
    ReplaceCharConcat("[", s, a, b);
    ReplaceCharConcat("[" + s, "]", a, b);
  }

  /** Swapping `a` for `b` and back restores a string that had no `b`. */
  lemma ReplaceCharBack(s: string, a: char, b: char)
    requires b !in s
    ensures ReplaceChar(ReplaceChar(s, a, b), b, a) == s
  {
    var r := ReplaceChar(ReplaceChar(s, a, b), b, a);
    forall k | 0 <= k < |s| ensures r[k] == s[k] {
      assert s[k] != b;
    }
  }

  /** `lower()` on one character, for the ASCII letters. */
  function LowerChar(c: char): char {
    if 'A' <= c <= 'Z' then (c as int + 32) as char else c
  }

  /** Python's `s.lower()`, restricted to ASCII case. */
  function Lower(s: string): (r: string)
    ensures |r| == |s|
    ensures forall k :: 0 <= k < |s| ==> r[k] == LowerChar(s[k])
  {
    if |s| == 0 then "" else [LowerChar(s[0])] + Lower(s[1..])
  }
}
