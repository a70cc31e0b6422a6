/** Python's `os.path.splitext` on a POSIX system: the extension is the last
    dot of the final path component and what follows it, unless the component
    consists of dots up to that point (a hidden file such as `.bashrc` has no
    extension). */
module Paths {

  /** The last index of `c` in `s`, or -1 (`str.rfind`). */
  function RFind(s: string, c: char): (r: int)
    ensures -1 <= r < |s|
    ensures r >= 0 ==> s[r] == c
    ensures forall k :: r < k < |s| ==> s[k] != c
  {
    if |s| == 0 then -1
    else if s[|s| - 1] == c then |s| - 1
    else RFind(s[..|s| - 1], c)
  }

  /** An index holding `c` with no `c` after it is what `RFind` returns. */
  lemma {:induction false} RFindIs(s: string, c: char, i: int)
    requires -1 <= i < |s| && (i >= 0 ==> s[i] == c)
    requires forall k :: i < k < |s| ==> s[k] != c
    ensures RFind(s, c) == i
    decreases |s|
  {
    if |s| > 0 && s[|s| - 1] != c {
      RFindIs(s[..|s| - 1], c, i);
    }
  }

  /** `os.path.splitext(p)`: `(root, ext)`. */
  function SplitExt(p: string): (string, string)
  {
    var sepIndex := RFind(p, '/');
    var dotIndex := RFind(p, '.');
    if dotIndex > sepIndex && exists k | sepIndex + 1 <= k < dotIndex :: p[k] != '.'
    then (p[..dotIndex], p[dotIndex..])
    else (p, "")
  }

  /** `os.path.splitext(p)[1]`. */
  function Ext(p: string): string {
    SplitExt(p).1
  }

  /** `root + ext == p`, and the extension is empty or a single dot followed by
      characters that are neither dots nor slashes. */
  lemma SplitExtShape(p: string)
    ensures SplitExt(p).0 + SplitExt(p).1 == p
    ensures var e := Ext(p);
      e == "" || (e[0] == '.' && forall k :: 1 <= k < |e| ==> e[k] != '.' && e[k] != '/')
  {
    var e := Ext(p);
    if e != "" {
      var dotIndex := RFind(p, '.');
      var sepIndex := RFind(p, '/');
      forall k | 1 <= k < |e| ensures e[k] != '.' && e[k] != '/' {
        assert e[k] == p[dotIndex + k];
      }
    }
  }

  /** A path made of a stem whose last character is neither a slash nor a dot,
      followed by a dot and a name free of dots and slashes, has exactly that
      dot and name as its extension. */
  lemma ExtOfAppended(stem: string, name: string)
    requires |stem| > 0 && stem[|stem| - 1] != '/' && stem[|stem| - 1] != '.'
    requires forall k :: 0 <= k < |name| ==> name[k] != '.' && name[k] != '/'
    ensures Ext(stem + "." + name) == "." + name
  {
    var p := stem + "." + name;
    var dot := |stem|;
    assert p[dot] == '.';
    forall k | dot < k < |p| ensures p[k] != '.' && p[k] != '/' {
      assert p[k] == name[k - dot - 1];
    }
    assert RFind(p, '.') == dot;
    var sepIndex := RFind(p, '/');
    assert sepIndex < dot - 1 by {
      assert p[dot - 1] == stem[|stem| - 1];
    }
    assert p[dot - 1] != '.';
    assert p[dot..] == "." + name;
  }

  /** The leading-dot rule: a final component made of one or more dots and a
      name without dots (`.txt`, `dir/.bashrc`, `..txt`) has no extension. */
  lemma LeadingDotsNoExt(dir: string, dots: string, name: string)
    requires dir == "" || dir[|dir| - 1] == '/'
    requires |dots| > 0 && forall k :: 0 <= k < |dots| ==> dots[k] == '.'
    requires forall k :: 0 <= k < |name| ==> name[k] != '.' && name[k] != '/'
    ensures Ext(dir + dots + name) == ""
  {
    var p := dir + dots + name;
    var start := |dir|;
    var dot := |dir| + |dots| - 1;
    forall k | start <= k <= dot ensures p[k] == '.' {
      assert p[k] == dots[k - start];
    }
    forall k | dot < k < |p| ensures p[k] != '.' && p[k] != '/' {
      assert p[k] == name[k - dot - 1];
    }
    RFindIs(p, '.', dot);
    forall k | start <= k < |p| ensures p[k] != '/' {
      assert k <= dot ==> p[k] == '.';
    }
    RFindIs(p, '/', start - 1);
  }
}
