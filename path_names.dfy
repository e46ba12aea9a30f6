/**
 * `os.path.splitext`, the test every script applies to a file name.
 * The scripts hard-code a Windows dataset path, so the separators are those of
 * Python's Windows path module: the backslash and, as its alternative, the slash.
 */
module PathNames {

  predicate IsSep(c: char)
  {
    c == '\\' || c == '/'
  }

  /** `p.rfind(sep)` over both separators: the index of the last separator, or -1. */
  function LastSep(p: string): (i: int)
    ensures -1 <= i < |p|
  {
    if p == [] then -1
    else
      var i := LastSep(p[1..]);
      if 0 <= i then i + 1 else if IsSep(p[0]) then 0 else -1
  }

  /** `p.rfind('.')`: the index of the last dot, or -1. */
  function LastDot(p: string): (i: int)
    ensures -1 <= i < |p|
  {
    if p == [] then -1
    else
      var i := LastDot(p[1..]);
      if 0 <= i then i + 1 else if p[0] == '.' then 0 else -1
  }

  lemma {:induction false} LastSepSpec(p: string)
    ensures 0 <= LastSep(p) ==> IsSep(p[LastSep(p)])
    ensures forall j :: LastSep(p) < j < |p| ==> !IsSep(p[j])
  {
    if p != [] {
      LastSepSpec(p[1..]);
      assert forall j :: 0 < j < |p| ==> p[j] == p[1..][j - 1];
    }
  }

  lemma {:induction false} LastDotSpec(p: string)
    ensures 0 <= LastDot(p) ==> p[LastDot(p)] == '.'
    ensures forall j :: LastDot(p) < j < |p| ==> p[j] != '.'
  {
    if p != [] {
      LastDotSpec(p[1..]);
      assert forall j :: 0 < j < |p| ==> p[j] == p[1..][j - 1];
    }
  }

  /**
   * `os.path.splitext(p)`: when the last dot lies in the final path component and
   * something other than a dot precedes it there, split at that dot; otherwise the
   * extension is empty (so leading dots, as in `.gitignore`, never start one).
   * The two parts always concatenate back to `p`.
   */
  function SplitExt(p: string): (r: (string, string))
    ensures r.0 + r.1 == p
    ensures ExtShape(r.1)
  {
    var sepIndex := LastSep(p);
    var dotIndex := LastDot(p);
    LastSepSpec(p);
    LastDotSpec(p);
    if dotIndex > sepIndex && HasNonDot(p[sepIndex + 1..dotIndex]) then
      (p[..dotIndex], p[dotIndex..])
    else
      (p, [])
  }

  /** The scan of `_splitext` past leading dots: does `s` hold a character other than a dot? */
  predicate HasNonDot(s: string)
  {
    s != [] && (s[0] != '.' || HasNonDot(s[1..]))
  }

  lemma {:induction false} HasNonDotSpec(s: string)
    ensures HasNonDot(s) <==> exists k :: 0 <= k < |s| && s[k] != '.'
  {
    if s != [] {
      HasNonDotSpec(s[1..]);
      if s[0] == '.' && exists k :: 0 <= k < |s| && s[k] != '.' {
        var k :| 0 <= k < |s| && s[k] != '.';
        assert s[1..][k - 1] != '.';
      }
    }
  }

  /** `os.path.splitext(p)[1]` */
  function Ext(p: string): string
  {
    SplitExt(p).1
  }

  /**
   * The final component of `p` holds a dot with some non-dot character before it
   * (both after the last separator).
   */
  ghost predicate HasExt(p: string)
  {
    exists k, d :: 0 <= k < d < |p| && p[d] == '.' && p[k] != '.' && NoSepFrom(p, k)
  }

  ghost predicate NoSepFrom(p: string, k: int)
  {
    forall j :: 0 <= j < |p| && k <= j ==> !IsSep(p[j])
  }

  /** The extension is non-empty exactly when the final component has a dot after a non-dot. */
  lemma ExtIffHasExt(p: string)
    ensures Ext(p) != [] <==> HasExt(p)
  {
    var sepIndex := LastSep(p);
    var dotIndex := LastDot(p);
    LastSepSpec(p);
    LastDotSpec(p);
    if dotIndex > sepIndex {
      var s := p[sepIndex + 1..dotIndex];
      HasNonDotSpec(s);
      assert forall k :: 0 <= k < |s| ==> s[k] == p[sepIndex + 1 + k];
    }
    if Ext(p) != [] {
      var k :| sepIndex < k < dotIndex && p[k] != '.';
      assert NoSepFrom(p, k);
    }
    if HasExt(p) {
      var k, d :| 0 <= k < d < |p| && p[d] == '.' && p[k] != '.' && NoSepFrom(p, k);
      assert d <= dotIndex;
      assert sepIndex < 0 || IsSep(p[sepIndex]);
      assert sepIndex < k < dotIndex && p[k] != '.';
    }
  }

  /** An extension: empty, or a dot followed by characters that are neither dots nor separators. */
  ghost predicate ExtShape(e: string)
  {
    e == [] || (e[0] == '.' && forall i :: 1 <= i < |e| ==> e[i] != '.' && !IsSep(e[i]))
  }

  /** The contract of `SplitExt` together with `ExtIffHasExt` determines the extension. */
  lemma ExtUnique(p: string, e: string)
    requires |e| <= |p| && p[|p| - |e|..] == e
    requires ExtShape(e)
    requires e != [] <==> HasExt(p)
    ensures Ext(p) == e
  {
    ExtIffHasExt(p);
    var x := Ext(p);
    assert p[|p| - |x|..] == x by {
      assert SplitExt(p).0 + x == p;
    }
    assert forall i :: 0 <= i < |x| ==> x[i] == p[|p| - |x| + i];
    assert forall i :: 0 <= i < |e| ==> e[i] == p[|p| - |e| + i];
  }

  /**
   * Only the final component matters: joining a directory and a file name with a
   * separator, as `os.path.join` does, leaves the extension of the file name.
   */
  lemma ExtOfJoin(dir: string, sep: char, name: string)
    requires IsSep(sep)
    requires forall i :: 0 <= i < |name| ==> !IsSep(name[i])
    ensures Ext(dir + [sep] + name) == Ext(name)
  {
    var q := dir + [sep] + name;
    var m := |dir| + 1;
    assert forall i :: 0 <= i < |name| ==> q[m + i] == name[i];
    assert q[|dir|] == sep;
    assert HasExt(q) <==> HasExt(name) by {
      if HasExt(name) {
        var k, d :| 0 <= k < d < |name| && name[d] == '.' && name[k] != '.' && NoSepFrom(name, k);
        assert q[m + d] == '.' && q[m + k] != '.';
        assert NoSepFrom(q, m + k);
      }
      if HasExt(q) {
        var k, d :| 0 <= k < d < |q| && q[d] == '.' && q[k] != '.' && NoSepFrom(q, k);
        assert IsSep(q[|dir|]);
        assert name[d - m] == '.' && name[k - m] != '.';
        assert NoSepFrom(name, k - m);
      }
    }
    var e := Ext(name);
    assert name[|name| - |e|..] == e by {
      assert SplitExt(name).0 + e == name;
    }
    assert q[|q| - |e|..] == e;
    ExtIffHasExt(name);
    ExtUnique(q, e);
  }

  /** A file name that starts with something other than a dot. */
  predicate PlainStem(stem: string)
  {
    stem != [] && stem[0] != '.' && forall i :: 0 <= i < |stem| ==> !IsSep(stem[i])
  }

  /**
   * After a plain stem, the extension is the suffix from the last dot, with its case
   * kept: `leaf.Jpg` has `.Jpg`, `leaf.jpg.bak` has `.bak`.
   */
  lemma ExtAfterStem(stem: string, ext: string)
    requires PlainStem(stem)
    requires ext != [] && ExtShape(ext)
    ensures Ext(stem + ext) == ext
  {
    var p := stem + ext;
    assert p[|stem|] == '.' && p[0] != '.';
    assert NoSepFrom(p, 0);
    assert p[|p| - |ext|..] == ext;
    ExtUnique(p, ext);
  }

  /**
   * Dots that only lead the name never start an extension: `.gitignore`,
   * `.DS_Store`, `.jpg` and `README` all have the extension `""`.
   */
  lemma ExtOfLeadingDots(dots: string, rest: string)
    requires forall i :: 0 <= i < |dots| ==> dots[i] == '.'
    requires forall i :: 0 <= i < |rest| ==> rest[i] != '.'
    ensures Ext(dots + rest) == ""
  {
    var p := dots + rest;
    assert !HasExt(p) by {
      forall k, d | 0 <= k < d < |p| && p[d] == '.'
        ensures p[k] == '.'
      {
        assert d < |dots|;
      }
    }
    ExtUnique(p, "");
  }
}
