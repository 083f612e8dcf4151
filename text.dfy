/** Character and string helpers shared by both scripts: decimal digits,
    strftime-style zero padding, ASCII case folding and Ruby's `\s`. */
module Text {

  predicate IsDigit(c: char) {
    '0' <= c <= '9'
  }

  predicate AllDigits(s: string) {
    forall i :: 0 <= i < |s| ==> IsDigit(s[i])
  }

  function DigitChar(n: nat): (c: char)
    requires n < 10
    ensures IsDigit(c)
  {
    ('0' as int + n) as char
  }

  function DigitValue(c: char): (n: nat)
    requires IsDigit(c)
    ensures n < 10 && DigitChar(n) == c
  {
    c as int - '0' as int
  }

  function Pow10(w: nat): (p: nat)
    ensures p >= 1
  {
    if w == 0 then 1 else 10 * Pow10(w - 1)
  }

  /** The number a string of decimal digits denotes, most significant digit first. */
  function Value(s: string): (n: nat)
    requires AllDigits(s)
    ensures n < Pow10(|s|)
    decreases |s|
  {
    if s == [] then 0 else 10 * Value(s[..|s| - 1]) + DigitValue(s[|s| - 1])
  }

  /** `n` in decimal, left-padded with '0' to at least `width` digits: what
      strftime prints for `%Y` (width 4) and for `%m`, `%d`, `%H`, `%M`, `%S`
      (width 2). A number wider than `width` is printed in full. */
  function Pad(n: nat, width: nat): (r: string)
    ensures AllDigits(r) && |r| >= 1 && |r| >= width
    decreases n + width
  {
    if n < 10 && width <= 1 then [DigitChar(n)]
    else Pad(n / 10, if width == 0 then 0 else width - 1) + [DigitChar(n % 10)]
  }

  /** Reading a padded number back gives the number. */
  lemma {:induction false} PadValue(n: nat, width: nat)
    ensures Value(Pad(n, width)) == n
    decreases n + width
  {
    if !(n < 10 && width <= 1) {
      var w' := if width == 0 then 0 else width - 1;
      var r, p, c := Pad(n, width), Pad(n / 10, w'), DigitChar(n % 10);
      assert r == p + [c];
      assert r[..|r| - 1] == p && r[|r| - 1] == c;
      assert DigitValue(c) == n % 10;
      PadValue(n / 10, w');
      assert Value(r) == 10 * Value(p) + DigitValue(c);
    }
  }

  /** A number below 10^width is printed in exactly `width` digits. */
  lemma {:induction false} PadLength(n: nat, width: nat)
    requires 1 <= width && n < Pow10(width)
    ensures |Pad(n, width)| == width
    decreases width
  {
    if !(n < 10 && width <= 1) {
      assert width >= 2;
      assert n / 10 < Pow10(width - 1);
      PadLength(n / 10, width - 1);
    }
  }

  /** A digit string is the padded form of its own value at its own width:
      fixed-width fields are canonical. */
  lemma {:induction false} PadOfDigits(s: string)
    requires AllDigits(s) && |s| >= 1
    ensures Pad(Value(s), |s|) == s
    decreases |s|
  {
    var v := Value(s);
    var init := s[..|s| - 1];
    var d := DigitValue(s[|s| - 1]);
    assert v == 10 * Value(init) + d;
    if |s| == 1 {
      assert init == [];
      assert s == [s[0]];
    } else {
      assert v / 10 == Value(init) && v % 10 == d;
      assert !(v < 10 && |s| <= 1);
      PadOfDigits(init);
      assert s == init + [s[|s| - 1]];
    }
  }

  /** Padding at a fixed width loses no information. */
  lemma PadInjective(a: nat, b: nat, width: nat)
    requires Pad(a, width) == Pad(b, width)
    ensures a == b
  {
    PadValue(a, width);
    PadValue(b, width);
  }

  /** Two concatenations with tails of equal length are equal exactly piecewise. */
  lemma SplitEq(a: string, u: string, b: string, v: string)
    requires a + u == b + v && |u| == |v|
    ensures a == b && u == v
  {
    assert a == (a + u)[..|a|] && b == (b + v)[..|b|];
    assert u == (a + u)[|a|..] && v == (b + v)[|b|..];
  }

  predicate IsUpper(c: char) {
    'A' <= c <= 'Z'
  }

  /** Ruby's `downcase` restricted to ASCII letters. */
  function LowerChar(c: char): (r: char)
    ensures !IsUpper(r)
    ensures IsUpper(c) || r == c
  {
    if IsUpper(c) then (c as int + 32) as char else c
  }

  function Lower(s: string): (r: string)
    ensures |r| == |s|
    ensures forall i :: 0 <= i < |s| ==> r[i] == LowerChar(s[i])
  {
    if s == [] then [] else [LowerChar(s[0])] + Lower(s[1..])
  }

  /** After downcasing no upper-case letter is left, and downcasing again changes nothing. */
  lemma LowerIsLower(s: string)
    ensures forall i :: 0 <= i < |s| ==> !IsUpper(Lower(s)[i])
    ensures Lower(Lower(s)) == Lower(s)
  {
  }

  /** Case-insensitive equality of ASCII strings. */
  predicate EqualFold(a: string, b: string) {
    Lower(a) == Lower(b)
  }

  /** Ruby's case-insensitive regexp match of a lower-case literal `w` somewhere in `s`. */
  predicate ContainsFold(s: string, w: string) {
    exists i | 0 <= i <= |s| :: FoldAt(s, w, i)
  }

  /** `w` occurs in `s` at index `i`, ignoring case. */
  predicate FoldAt(s: string, w: string, i: int) {
    0 <= i && i + |w| <= |s| && Lower(s[i..i + |w|]) == w
  }

  /** Ruby's `\s`: space, tab, newline, vertical tab, form feed, carriage return. */
  predicate IsSpace(c: char) {
    c == ' ' || c == '\t' || c == '\n' || c == '\r' || c as int == 11 || c as int == 12
  }

  /** What `\s*` consumes at the front of a string. */
  function SkipSpaces(s: string): (r: string)
    ensures |r| <= |s| && r == s[|s| - |r|..]
    ensures r == [] || !IsSpace(r[0])
    ensures forall i :: 0 <= i < |s| - |r| ==> IsSpace(s[i])
  {
    if s != [] && IsSpace(s[0]) then SkipSpaces(s[1..]) else s
  }
}
