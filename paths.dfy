/** Paths as plain strings, and Ruby's `File.extname`, which both scripts use.
    The facts about each function are lemmas of their own, so that a proof
    pays for them only where it calls them. */
module Paths {

  type Path = string

  /** `File.join(dir, name)` for a name without separators. */
  function Join(dir: Path, name: string): Path {
    dir + "/" + name
  }

  /** The joined path is the directory, one separator and the name. */
  lemma JoinParts(dir: Path, name: string)
    ensures var p := Join(dir, name);
      |p| == |dir| + 1 + |name| && p[..|dir|] == dir && p[|dir|] == '/' && p[|dir| + 1..] == name
  {
  }

  /** The part of a path after its last '/'. */
  function LastComponent(p: Path): string {
    if p == [] then []
    else if p[|p| - 1] == '/' then []
    else LastComponent(p[..|p| - 1]) + [p[|p| - 1]]
  }

  /** The last component is the longest tail of the path without a '/'. */
  lemma {:induction false} LastComponentParts(p: Path)
    ensures var r := LastComponent(p);
      && '/' !in r && |r| <= |p| && r == p[|p| - |r|..]
      && (|r| < |p| ==> p[|p| - |r| - 1] == '/')
  {
    if p != [] && p[|p| - 1] != '/' {
      var q := p[..|p| - 1];
      LastComponentParts(q);
      var r := LastComponent(q);
      assert p[|p| - |r| - 1..] == q[|q| - |r|..] + [p[|p| - 1]];
      if |r| < |q| {
        assert p[|p| - |r| - 2] == q[|q| - |r| - 1];
      }
    }
  }

  /** The last component of a joined path is the name. */
  lemma JoinLastComponent(dir: Path, name: string)
    requires '/' !in name
    ensures LastComponent(Join(dir, name)) == name
  {
    var p := Join(dir, name);
    JoinParts(dir, name);
    LastComponentParts(p);
  }

  /** The tail of `s` from its last '.', or "" when `s` has no '.'. */
  function FromLastDot(s: string): string {
    if s == [] then []
    else if s[|s| - 1] == '.' then "."
    else
      var t := FromLastDot(s[..|s| - 1]);
      if t == [] then [] else t + [s[|s| - 1]]
  }

  /** The tail taken holds exactly one dot, at its start; it is empty only
      when there is no dot at all. */
  lemma FromLastDotParts(s: string)
    ensures var e := FromLastDot(s);
      && (e == [] ==> '.' !in s)
      && (e != [] ==> e[0] == '.' && '.' !in e[1..] && |e| <= |s| && e == s[|s| - |e|..])
  {
    FromLastDotNone(s);
    FromLastDotTail(s);
  }

  lemma {:induction false} FromLastDotNone(s: string)
    ensures FromLastDot(s) == [] ==> '.' !in s
  {
    if s != [] && s[|s| - 1] != '.' {
      var q, c := s[..|s| - 1], s[|s| - 1];
      assert s == q + [c];
      FromLastDotNone(q);
    }
  }

  lemma {:induction false} FromLastDotTail(s: string)
    ensures var e := FromLastDot(s);
      e != [] ==> e[0] == '.' && '.' !in e[1..] && |e| <= |s| && e == s[|s| - |e|..]
  {
    if s != [] && s[|s| - 1] != '.' {
      var q, c := s[..|s| - 1], s[|s| - 1];
      assert s == q + [c];
      FromLastDotTail(q);
      var t := FromLastDot(q);
      if t != [] {
        var e := t + [c];
        assert e[0] == t[0] && e[1..] == t[1..] + [c];
        assert s[|s| - |e|..] == q[|q| - |t|..] + [c];
      }
    }
  }

  /** The tail from the last dot, when the dot is followed by `b`. */
  lemma {:induction false} FromLastDotOf(a: string, b: string)
    requires '.' !in b
    ensures FromLastDot(a + "." + b) == "." + b
    decreases |b|
  {
    var s := a + "." + b;
    if b != [] {
      var b' := b[..|b| - 1];
      assert s[..|s| - 1] == a + "." + b' && s[|s| - 1] == b[|b| - 1];
      assert forall c | c in b' :: c in b;
      FromLastDotOf(a, b');
      assert "." + b' + [b[|b| - 1]] == "." + b;
    }
  }

  /** A name without separators is its own last component. */
  lemma {:induction false} NameIsLastComponent(s: string)
    requires '/' !in s
    ensures LastComponent(s) == s
  {
    if s != [] {
      assert forall c | c in s[..|s| - 1] :: c in s;
      NameIsLastComponent(s[..|s| - 1]);
      assert s[..|s| - 1] + [s[|s| - 1]] == s;
    }
  }

  /** A name with its leading dots removed. */
  function SkipDots(s: string): string {
    if s != [] && s[0] == '.' then SkipDots(s[1..]) else s
  }

  /** The leading dots, and only they, are removed. */
  lemma {:induction false} SkipDotsParts(s: string)
    ensures var r := SkipDots(s);
      && (r == [] || r[0] != '.') && |r| <= |s| && r == s[|s| - |r|..]
      && (forall i :: 0 <= i < |s| - |r| ==> s[i] == '.')
  {
    if s != [] && s[0] == '.' {
      SkipDotsParts(s[1..]);
    }
  }

  /** Ruby's `File.extname`: in the last component, leading dots are ignored
      and the extension runs from the last remaining dot to the end; a name
      ending in a dot has extension ".". */
  function ExtName(p: Path): string {
    FromLastDot(SkipDots(LastComponent(p)))
  }

  /** An extension is empty, or a dot and then no further dot. It is a tail
      of the last component `c`; it is empty exactly when no dot is left in
      `c` once its leading dots are skipped; and a non-empty one never starts
      at a leading dot, so some character before it is not a dot. */
  lemma ExtNameParts(p: Path)
    ensures var e, c := ExtName(p), LastComponent(p);
      && (e == [] || (e[0] == '.' && '.' !in e[1..]))
      && |e| <= |c| && e == c[|c| - |e|..]
      && (e == [] <==> '.' !in SkipDots(c))
      && (e != [] ==> exists i :: 0 <= i < |c| - |e| && c[i] != '.')
  {
    var c := LastComponent(p);
    assert ExtName(p) == FromLastDot(SkipDots(c));
    ExtensionOfName(c);
  }

  /** An extension is a tail of the whole path. */
  lemma ExtNameIsTail(p: Path)
    ensures |ExtName(p)| <= |p| && ExtName(p) == p[|p| - |ExtName(p)|..]
  {
    var c := LastComponent(p);
    var e := ExtName(p);
    assert e == FromLastDot(SkipDots(c));
    ExtensionOfName(c);
    LastComponentParts(p);
    TailOfTail(e, c, p);
  }

  /** A tail of a tail is a tail. */
  lemma TailOfTail(a: string, b: string, c: string)
    requires |a| <= |b| && a == b[|b| - |a|..] && |b| <= |c| && b == c[|c| - |b|..]
    ensures |a| <= |c| && a == c[|c| - |a|..]
  {
    assert c[|c| - |a|..] == c[|c| - |b|..][|b| - |a|..];
  }

  /** The same facts for a single name `c`. */
  lemma ExtensionOfName(c: string)
    ensures var e := FromLastDot(SkipDots(c));
      && (e == [] || (e[0] == '.' && '.' !in e[1..]))
      && |e| <= |c| && e == c[|c| - |e|..]
      && (e == [] <==> '.' !in SkipDots(c))
      && (e != [] ==> exists i :: 0 <= i < |c| - |e| && c[i] != '.')
  {
    var k := SkipDots(c);
    var e := FromLastDot(k);
    SkipDotsParts(c);
    FromLastDotParts(k);
    if e != [] {
      TailOfTail(e, k, c);
      assert '.' in k by { assert k[|k| - |e|] == e[0]; }
      assert |e| < |k|;
      assert c[|c| - |k|] == k[0];
    } else {
      assert e == c[|c|..];
    }
  }
}
