/** Character-level helpers shared by the record codec, the document parser and
    the metadata rewriter: substring search, Python's `str.strip()` and
    `str.split(":")`, and decimal digits. */
module Text {

  datatype Option<+T> = None | Some(value: T)

  /** `p` occurs in `s` at offset `i`. */
  predicate StartsAt(s: string, i: int, p: string)
  {
    0 <= i && i + |p| <= |s| && s[i..i + |p|] == p
  }

  /** Two patterns occurring back to back make their concatenation occur. */
  lemma StartsAtConcat(s: string, i: int, p: string, q: string)
    requires StartsAt(s, i, p) && StartsAt(s, i + |p|, q)
    ensures StartsAt(s, i, p + q)
  {
    assert s[i..i + |p + q|] == s[i..i + |p|] + s[i + |p|..i + |p| + |q|];
  }

  /** An occurrence of `p + q` is an occurrence of `p` followed by one of `q`. */
  lemma StartsAtSplit(s: string, i: int, p: string, q: string)
    requires StartsAt(s, i, p + q)
    ensures StartsAt(s, i, p) && StartsAt(s, i + |p|, q)
  {
    assert s[i..i + |p|] == s[i..i + |p + q|][..|p|];
    assert s[i + |p|..i + |p| + |q|] == s[i..i + |p + q|][|p|..];
  }

  /** The characters of an occurrence, one by one. */
  lemma StartsAtChars(s: string, i: int, p: string)
    requires StartsAt(s, i, p)
    ensures forall k :: 0 <= k < |p| ==> s[i + k] == p[k]
  {
    forall k | 0 <= k < |p| ensures s[i + k] == p[k] {
      assert s[i..i + |p|][k] == p[k];
    }
  }

  /** Index of the first occurrence of `p` in `s` at or after `i`
      (what a regular-expression search for a literal finds). */
  function FindFrom(s: string, i: nat, p: string): (r: Option<nat>)
    decreases |s| - i
    ensures r.Some? ==> i <= r.value && StartsAt(s, r.value, p)
    ensures r.Some? ==> forall k :: i <= k < r.value ==> !StartsAt(s, k, p)
    ensures r.None? ==> forall k :: i <= k ==> !StartsAt(s, k, p)
  {
    if i + |p| > |s| then None
    else if s[i..i + |p|] == p then Some(i)
    else FindFrom(s, i + 1, p)
  }

  /** Index of the first `c` in `s` at or after `i`. */
  function FindChar(s: string, i: nat, c: char): (r: Option<nat>)
    decreases |s| - i
    ensures r.Some? ==> i <= r.value < |s| && s[r.value] == c
    ensures r.Some? ==> forall k :: i <= k < r.value ==> s[k] != c
    ensures r.None? ==> forall k :: i <= k < |s| ==> s[k] != c
  {
    if i >= |s| then None
    else if s[i] == c then Some(i)
    else FindChar(s, i + 1, c)
  }

  /** Index of the first newline at or after `i`, or `|s|` when the line runs
      to the end of the text (where a `.`-pattern without DOTALL stops). */
  function LineEnd(s: string, i: nat): (e: nat)
    requires i <= |s|
    decreases |s| - i
    ensures i <= e <= |s|
    ensures e < |s| ==> s[e] == '\n'
    ensures forall k :: i <= k < e ==> s[k] != '\n'
  {
    if i == |s| || s[i] == '\n' then i else LineEnd(s, i + 1)
  }

  /** The first `c` from `i` on is at `j` when `c` is at `j` and not before. */
  lemma FindCharAt(s: string, i: nat, j: nat, c: char)
    requires i <= j < |s| && s[j] == c
    requires forall k :: i <= k < j ==> s[k] != c
    ensures FindChar(s, i, c) == Some(j)
  {
  }

  /** A line with no newline from `i` up to `n` ends at `n` or later. */
  lemma LineEndAtLeast(s: string, i: nat, n: nat)
    requires i <= n <= |s|
    requires forall k :: i <= k < n ==> s[k] != '\n'
    ensures n <= LineEnd(s, i)
  {
  }

  /** A search from `i` finds an occurrence at `n` or earlier. */
  lemma FindFromAtMost(s: string, i: nat, n: nat, p: string)
    requires i <= n && StartsAt(s, n, p)
    ensures FindFrom(s, i, p).Some? && FindFrom(s, i, p).value <= n
  {
  }

  /** The characters Python's `str.isspace()` accepts. */
  predicate IsSpace(c: char)
  {
    ('\t' <= c <= '\r') || ('\U{1c}' <= c <= ' ') || c == '\U{85}' || c == '\U{a0}'
    || c == '\U{1680}' || ('\U{2000}' <= c <= '\U{200a}') || c == '\U{2028}' || c == '\U{2029}'
    || c == '\U{202f}' || c == '\U{205f}' || c == '\U{3000}'
  }

  /** Python's `str.strip()`: leading and then trailing whitespace removed,
      leaving the longest infix with no surrounding whitespace. */
  function Strip(s: string): (r: string)
    ensures r != [] ==> !IsSpace(r[0]) && !IsSpace(r[|r| - 1])
    ensures |r| <= |s|
  {
    if s == [] then s
    else if IsSpace(s[0]) then Strip(s[1..])
    else if IsSpace(s[|s| - 1]) then Strip(s[..|s| - 1])
    else s
  }

  /** Stripping leaves nothing exactly when every character is whitespace. */
  lemma {:induction false} StripEmpty(s: string)
    ensures Strip(s) == [] <==> forall k :: 0 <= k < |s| ==> IsSpace(s[k])
  {
    if s != [] && IsSpace(s[0]) {
      StripEmpty(s[1..]);
      assert forall k :: 1 <= k < |s| ==> s[k] == s[1..][k - 1];
    } else if s != [] && IsSpace(s[|s| - 1]) {
      StripEmpty(s[..|s| - 1]);
      assert forall k :: 0 <= k < |s| - 1 ==> s[k] == s[..|s| - 1][k];
    }
  }

  /** Only whitespace precedes offset `a` and follows offset `b`. */
  predicate SpaceOutside(s: string, a: nat, b: nat)
  {
    (forall k :: 0 <= k < a && k < |s| ==> IsSpace(s[k]))
    && (forall k :: b <= k < |s| ==> IsSpace(s[k]))
  }

  /** Stripping a leading space: the infix of the rest, shifted by one. */
  lemma StripInfixFront(s: string, a: nat, b: nat)
    requires s != [] && IsSpace(s[0]) && a <= b <= |s| - 1
    requires Strip(s[1..]) == s[1..][a..b] && SpaceOutside(s[1..], a, b)
    ensures Strip(s) == s[a + 1..b + 1] && SpaceOutside(s, a + 1, b + 1)
  {
    assert s[1..][a..b] == s[a + 1..b + 1];
    SpaceOutsideFront(s, a, b);
  }

  lemma SpaceOutsideFront(s: string, a: nat, b: nat)
    requires s != [] && IsSpace(s[0]) && SpaceOutside(s[1..], a, b)
    ensures SpaceOutside(s, a + 1, b + 1)
  {
    forall k | 1 <= k < |s| ensures s[k] == s[1..][k - 1] { }
  }

  /** Stripping a trailing space: the infix of the rest, at the same offsets. */
  lemma StripInfixBack(s: string, a: nat, b: nat)
    requires s != [] && !IsSpace(s[0]) && IsSpace(s[|s| - 1]) && a <= b <= |s| - 1
    requires Strip(s[..|s| - 1]) == s[..|s| - 1][a..b] && SpaceOutside(s[..|s| - 1], a, b)
    ensures Strip(s) == s[a..b] && SpaceOutside(s, a, b)
  {
    assert s[..|s| - 1][a..b] == s[a..b];
    SpaceOutsideBack(s, a, b);
  }

  lemma SpaceOutsideBack(s: string, a: nat, b: nat)
    requires s != [] && IsSpace(s[|s| - 1]) && b <= |s| - 1 && SpaceOutside(s[..|s| - 1], a, b)
    ensures SpaceOutside(s, a, b)
  {
    forall k | 0 <= k < |s| - 1 ensures s[k] == s[..|s| - 1][k] { }
  }

  /** What stripping keeps is an infix of the input with only whitespace
      before and after it; with the non-whitespace ends of `Strip`, that is
      the longest such infix. */
  lemma {:induction false} StripInfix(s: string)
    ensures exists a: nat, b: nat :: a <= b <= |s| && Strip(s) == s[a..b] && SpaceOutside(s, a, b)
    decreases |s|
  {
    if s == [] {
      assert Strip(s) == s[0..0] && SpaceOutside(s, 0, 0);
    } else if IsSpace(s[0]) {
      var t := s[1..];
      StripInfix(t);
      var a: nat, b: nat :| a <= b <= |t| && Strip(t) == t[a..b] && SpaceOutside(t, a, b);
      StripInfixFront(s, a, b);
    } else if IsSpace(s[|s| - 1]) {
      var t := s[..|s| - 1];
      StripInfix(t);
      var a: nat, b: nat :| a <= b <= |t| && Strip(t) == t[a..b] && SpaceOutside(t, a, b);
      StripInfixBack(s, a, b);
    } else {
      assert Strip(s) == s[0..|s|] && SpaceOutside(s, 0, |s|);
    }
  }

  /** Python's `s.split(sep)`: always at least one part, one more than the
      number of separators. */
  function Split(s: string, sep: char): (parts: seq<string>)
    decreases |s|
    ensures |parts| >= 1
    ensures forall k :: 0 <= k < |parts| ==> sep !in parts[k]
  {
    match FindChar(s, 0, sep)
    case None => [s]
    case Some(i) => [s[..i]] + Split(s[i + 1..], sep)
  }

  /** Joining parts that hold no separator and splitting again gives them back. */
  lemma {:induction false} SplitJoin(x: string, sep: char, y: string)
    requires sep !in x
    ensures Split(x + [sep] + y, sep) == [x] + Split(y, sep)
  {
    var s := x + [sep] + y;
    var f := FindChar(s, 0, sep);
    assert forall k :: 0 <= k < |x| ==> s[k] == x[k];
    assert s[|x|] == sep;
    assert f == Some(|x|);
    assert s[..|x|] == x;
    assert s[|x| + 1..] == y;
  }

  lemma SplitNoSep(x: string, sep: char)
    requires sep !in x
    ensures Split(x, sep) == [x]
  {
  }

  lemma SplitFourNested(a: string, b: string, c: string, d: string, sep: char)
    requires sep !in a && sep !in b && sep !in c && sep !in d
    ensures Split(a + [sep] + (b + [sep] + (c + [sep] + d)), sep) == [a, b, c, d]
  {
    var r3 := c + [sep] + d;
    var r2 := b + [sep] + r3;
    SplitNoSep(d, sep);
    SplitJoin(c, sep, d);
    SplitJoin(b, sep, r3);
    SplitJoin(a, sep, r2);
    ConsFour(a, b, c, d);
  }

  lemma ConsFour<T>(a: T, b: T, c: T, d: T)
    ensures [a] + ([b] + ([c] + [d])) == [a, b, c, d]
  {
  }

  lemma ConcatFour(a: string, b: string, c: string, d: string, sep: char)
    ensures a + [sep] + b + [sep] + c + [sep] + d == a + [sep] + (b + [sep] + (c + [sep] + d))
  {
  }

  /** Four separator-free fields joined by the separator split back into the four. */
  lemma SplitFour(a: string, b: string, c: string, d: string, sep: char)
    requires sep !in a && sep !in b && sep !in c && sep !in d
    ensures Split(a + [sep] + b + [sep] + c + [sep] + d, sep) == [a, b, c, d]
  {
    ConcatFour(a, b, c, d, sep);
    SplitFourNested(a, b, c, d, sep);
  }

  predicate IsDigit(c: char) { '0' <= c <= '9' }

  predicate AllDigits(s: string) { forall k :: 0 <= k < |s| ==> IsDigit(s[k]) }

  function DigitValue(c: char): (d: nat)
    requires IsDigit(c)
    ensures d <= 9
  {
    (c as int - '0' as int) as nat
  }

  function DigitChar(d: nat): (c: char)
    requires d <= 9
    ensures IsDigit(c) && DigitValue(c) == d
  {
    ('0' as int + d) as char
  }

  /** Value of a string of decimal digits (most significant first). */
  function DigitsValue(s: string): (n: nat)
    requires AllDigits(s)
    decreases |s|
  {
    if s == [] then 0 else 10 * DigitsValue(s[..|s| - 1]) + DigitValue(s[|s| - 1])
  }

  /** `n` written in decimal with no leading zeros (`"0"` for zero), as Python's `str(n)`. */
  function NatToDigits(n: nat): (s: string)
    decreases n
    ensures |s| >= 1 && AllDigits(s)
    ensures |s| > 1 ==> s[0] != '0'
  {
    if n < 10 then [DigitChar(n)] else NatToDigits(n / 10) + [DigitChar(n % 10)]
  }

  lemma {:induction false} NatToDigitsValue(n: nat)
    ensures DigitsValue(NatToDigits(n)) == n
    decreases n
  {
    var s := NatToDigits(n);
    if n >= 10 {
      NatToDigitsValue(n / 10);
      assert s[..|s| - 1] == NatToDigits(n / 10);
    }
  }

  /** `n` zero-padded to `width` digits, as Python's `%0<width>d` (for `n` that fits). */
  function PadDigits(n: nat, width: nat): (s: string)
    decreases width
    ensures |s| == width && AllDigits(s)
  {
    if width == 0 then [] else PadDigits(n / 10, width - 1) + [DigitChar(n % 10)]
  }

  function Pow10(k: nat): (p: nat)
    ensures p >= 1
  {
    if k == 0 then 1 else 10 * Pow10(k - 1)
  }

  lemma {:induction false} PadDigitsValue(n: nat, width: nat)
    requires n < Pow10(width)
    ensures DigitsValue(PadDigits(n, width)) == n
    decreases width
  {
    if width > 0 {
      var s := PadDigits(n, width);
      assert s[..|s| - 1] == PadDigits(n / 10, width - 1);
      PadDigitsValue(n / 10, width - 1);
    }
  }

  lemma {:induction false} DigitsValueBound(s: string)
    requires AllDigits(s)
    ensures DigitsValue(s) < Pow10(|s|)
    decreases |s|
  {
    if s != [] { DigitsValueBound(s[..|s| - 1]); }
  }

  /** Padding the value of a digit string back to its width gives the string. */
  lemma {:induction false} DigitsValuePad(s: string)
    requires AllDigits(s)
    ensures PadDigits(DigitsValue(s), |s|) == s
    decreases |s|
  {
    if s != [] {
      var init := s[..|s| - 1];
      DigitsValuePad(init);
      var v := DigitsValue(s);
      assert v / 10 == DigitsValue(init);
      assert v % 10 == DigitValue(s[|s| - 1]);
      assert DigitChar(DigitValue(s[|s| - 1])) == s[|s| - 1];
      assert s == init + [s[|s| - 1]];
    }
  }
}
