/** Character classes and string helpers shared by both scripts: Python's
    whitespace, ASCII digits and letters, `str.strip`, `str.lower`, decimal
    digit strings and Python's code-point order on strings. */
module Text {

  /** Python's `str.isspace`, which is also what the `\s` class of `re`
      matches in a str pattern. */
  predicate IsSpace(c: char) {
    var n := c as int;
    n == 32 || 9 <= n <= 13 || 28 <= n <= 31 || n == 0x85 || n == 0xA0 || n == 0x1680
    || 0x2000 <= n <= 0x200A || n == 0x2028 || n == 0x2029 || n == 0x202F
    || n == 0x205F || n == 0x3000
  }

  predicate IsDigit(c: char) {
    '0' <= c <= '9'
  }

  /** The class `[A-Za-z]`. */
  predicate IsLetter(c: char) {
    'a' <= c <= 'z' || 'A' <= c <= 'Z'
  }

  function LowerChar(c: char): char {
    if 'A' <= c <= 'Z' then (c as int + 32) as char else c
  }

  /** ASCII lower-casing, the case folding the matchers here rely on. */
  function Lower(s: string): (r: string)
    ensures |r| == |s|
    ensures forall i :: 0 <= i < |s| ==> r[i] == LowerChar(s[i])
  {
    if s == [] then [] else [LowerChar(s[0])] + Lower(s[1..])
  }

  predicate AllDigits(s: string) {
    forall i :: 0 <= i < |s| ==> IsDigit(s[i])
  }

  function DigitValue(c: char): nat
    requires IsDigit(c)
  {
    c as int - '0' as int
  }

  function DigitChar(d: nat): (c: char)
    requires d < 10
    ensures IsDigit(c) && DigitValue(c) == d
  {
    ('0' as int + d) as char
  }

  /** The number a non-empty or empty string of decimal digits denotes. */
  function DigitsValue(s: string): nat
    requires AllDigits(s)
    decreases |s|
  {
    if s == [] then 0 else DigitsValue(s[..|s| - 1]) * 10 + DigitValue(s[|s| - 1])
  }

  /** The value of one digit. */
  lemma OneDigitValue(p: string)
    requires |p| == 1 && AllDigits(p)
    ensures DigitsValue(p) == DigitValue(p[0])
  {
    assert p[..0] == [];
  }

  /** The value of two digits. */
  lemma TwoDigitsValue(p: string)
    requires |p| == 2 && AllDigits(p)
    ensures DigitsValue(p) == DigitValue(p[0]) * 10 + DigitValue(p[1])
  {
    var h := p[..1];
    assert h[..0] == [] && h[0] == p[0];
    assert DigitsValue(h) == DigitValue(p[0]);
    assert DigitsValue(p) == DigitsValue(h) * 10 + DigitValue(p[1]);
  }

  /** The value of four digits. */
  lemma FourDigitsValue(p: string)
    requires |p| == 4 && AllDigits(p)
    ensures DigitsValue(p) == ((DigitValue(p[0]) * 10 + DigitValue(p[1])) * 10 + DigitValue(p[2])) * 10 + DigitValue(p[3])
  {
    var h := p[..2];
    var c := p[..3];
    assert h[0] == p[0] && h[1] == p[1];
    TwoDigitsValue(h);
    assert c[..2] == h && c[2] == p[2];
    assert DigitsValue(c) == DigitsValue(h) * 10 + DigitValue(p[2]);
    assert DigitsValue(p) == DigitsValue(c) * 10 + DigitValue(p[3]);
  }

  /** Two digit strings of one length that denote the same number are equal. */
  lemma {:induction false} DigitsValueInjective(a: string, b: string)
    requires |a| == |b| && AllDigits(a) && AllDigits(b) && DigitsValue(a) == DigitsValue(b)
    ensures a == b
    decreases |a|
  {
    if a != [] {
      var n := |a| - 1;
      var x, y := DigitsValue(a[..n]), DigitsValue(b[..n]);
      assert x * 10 + DigitValue(a[n]) == y * 10 + DigitValue(b[n]);
      SplitTens(x, DigitValue(a[n]), y, DigitValue(b[n]));
      DigitsValueInjective(a[..n], b[..n]);
      assert a == a[..n] + [a[n]] && b == b[..n] + [b[n]];
    }
  }

  /** A number's last decimal digit and the rest are determined by it. */
  lemma SplitTens(x: int, c: int, y: int, d: int)
    requires 0 <= c < 10 && 0 <= d < 10 && x * 10 + c == y * 10 + d
    ensures c == d && x == y
  {
  }

  /** Python's `str(n)` for a natural number: decimal, no leading zero. */
  function NatToString(n: nat): (r: string)
    ensures |r| > 0 && AllDigits(r) && DigitsValue(r) == n
    ensures n < 10 ==> |r| == 1
    ensures 10 <= n ==> |r| >= 2 && r[0] != '0'
    ensures n < 10 ==> r[0] != '0' || n == 0
    decreases n
  {
    if n < 10 then [DigitChar(n)]
    else
      var p := NatToString(n / 10);
      var r := p + [DigitChar(n % 10)];
      assert r[..|r| - 1] == p;
      r
  }

  /** The number of digits `str(n)` has. */
  lemma {:induction false} NatToStringLength(n: nat)
    ensures n < 10 ==> |NatToString(n)| == 1
    ensures 10 <= n < 100 ==> |NatToString(n)| == 2
    ensures 100 <= n < 1000 ==> |NatToString(n)| == 3
    ensures 1000 <= n < 10000 ==> |NatToString(n)| == 4
    ensures 10000 <= n ==> |NatToString(n)| >= 5
    decreases n
  {
    if n >= 10 {
      NatToStringLength(n / 10);
      assert |NatToString(n)| == |NatToString(n / 10)| + 1;
    }
  }

  /** Four decimal digits, zero-padded: strftime's `%Y` for years 1 to 9999. */
  function Pad4(n: nat): (r: string)
    requires n < 10000
    ensures |r| == 4 && AllDigits(r) && DigitsValue(r) == n
  {
    var hi, lo := Pad2(n / 100), Pad2(n % 100);
    DigitsValueAppend(hi, lo);
    assert Pow10(2) == 100;
    hi + lo
  }

  /** Two decimal digits, zero-padded: strftime's `%m` and `%d`. */
  function Pad2(n: nat): (r: string)
    requires n < 100
    ensures |r| == 2 && AllDigits(r) && DigitsValue(r) == n
  {
    var a, b := DigitChar(n / 10), DigitChar(n % 10);
    var r := [a, b];
    assert DigitsValue([a]) == DigitValue(a) by { assert [a][..0] == []; }
    assert DigitsValue(r) == DigitsValue([a]) * 10 + DigitValue(b) by { assert r[..1] == [a]; }
    r
  }

  function Pow10(n: nat): (r: nat)
    ensures r >= 1
  {
    if n == 0 then 1 else 10 * Pow10(n - 1)
  }

  lemma AllDigitsAppend(a: string, b: string)
    requires AllDigits(a) && AllDigits(b)
    ensures AllDigits(a + b)
  {
    var ab := a + b;
    forall i | 0 <= i < |ab| ensures IsDigit(ab[i]) {
      if i < |a| { assert ab[i] == a[i]; } else { assert ab[i] == b[i - |a|]; }
    }
  }

  /** The digits of `b` appended to those of `a` shift `a` left by `|b|` places. */
  lemma {:induction false} DigitsValueAppend(a: string, b: string)
    requires AllDigits(a) && AllDigits(b)
    ensures AllDigits(a + b) && DigitsValue(a + b) == DigitsValue(a) * Pow10(|b|) + DigitsValue(b)
    decreases |b|
  {
    var ab := a + b;
    AllDigitsAppend(a, b);
    if b == [] {
      assert ab == a;
    } else {
      var n := |b| - 1;
      assert ab[..|ab| - 1] == a + b[..n];
      assert ab[|ab| - 1] == b[n];
      DigitsValueAppend(a, b[..n]);
      var x, p, y, d := DigitsValue(a), Pow10(n), DigitsValue(b[..n]), DigitValue(b[n]);
      var u := DigitsValue(a + b[..n]);
      assert DigitsValue(ab) == u * 10 + d;
      assert DigitsValue(b) == y * 10 + d;
      assert Pow10(|b|) == 10 * p;
      ShiftByTen(x, p, y, d, u, DigitsValue(ab), DigitsValue(b), Pow10(|b|));
    }
  }

  lemma ShiftByTen(x: int, p: int, y: int, d: int, u: int, v: int, w: int, q: int)
    requires u == x * p + y && v == u * 10 + d && w == y * 10 + d && q == 10 * p
    ensures v == x * q + w
  {
  }

  /** `n` digits denote a number below `10^n`. */
  lemma {:induction false} DigitsValueBound(s: string)
    requires AllDigits(s)
    ensures DigitsValue(s) < Pow10(|s|)
    decreases |s|
  {
    if s != [] {
      DigitsValueBound(s[..|s| - 1]);
    }
  }

  /** The number of consecutive decimal digits of `s` from `i` on. */
  function DigitRun(s: string, i: nat): (r: nat)
    requires i <= |s|
    ensures i + r <= |s|
    ensures forall k :: i <= k < i + r ==> IsDigit(s[k])
    ensures i + r == |s| || !IsDigit(s[i + r])
    decreases |s| - i
  {
    if i < |s| && IsDigit(s[i]) then 1 + DigitRun(s, i + 1) else 0
  }

  /** A run of digits ended by a non-digit or by the end is what `DigitRun` counts. */
  lemma {:induction false} DigitRunExact(s: string, i: nat, n: nat)
    requires i + n <= |s|
    requires forall k :: i <= k < i + n ==> IsDigit(s[k])
    requires i + n == |s| || !IsDigit(s[i + n])
    ensures DigitRun(s, i) == n
    decreases n
  {
    if n > 0 { DigitRunExact(s, i + 1, n - 1); }
  }

  /** The characters a digit run covers are digits. */
  lemma DigitRunDigits(s: string, i: nat)
    requires i <= |s|
    ensures AllDigits(s[i .. i + DigitRun(s, i)])
  {
    var w := s[i .. i + DigitRun(s, i)];
    forall k | 0 <= k < |w| ensures IsDigit(w[k]) {
      assert w[k] == s[i + k];
    }
  }

  /** The number of consecutive whitespace characters of `s` from `i` on. */
  function SpaceRun(s: string, i: nat): (r: nat)
    requires i <= |s|
    ensures i + r <= |s|
    ensures forall k :: i <= k < i + r ==> IsSpace(s[k])
    ensures i + r == |s| || !IsSpace(s[i + r])
    decreases |s| - i
  {
    if i < |s| && IsSpace(s[i]) then 1 + SpaceRun(s, i + 1) else 0
  }

  /** A run of spaces ended by a non-space or by the end is what `SpaceRun` counts. */
  lemma {:induction false} SpaceRunExact(s: string, i: nat, n: nat)
    requires i + n <= |s|
    requires forall k :: i <= k < i + n ==> IsSpace(s[k])
    requires i + n == |s| || !IsSpace(s[i + n])
    ensures SpaceRun(s, i) == n
    decreases n
  {
    if n > 0 { SpaceRunExact(s, i + 1, n - 1); }
  }

  /** One space followed by something else is a run of one. */
  lemma SingleSpace(s: string, i: nat)
    requires i + 1 < |s| && IsSpace(s[i]) && !IsSpace(s[i + 1])
    ensures SpaceRun(s, i) == 1
  {
    assert SpaceRun(s, i + 1) == 0;
  }

  /** The number of whitespace characters at the end of `s`. */
  function TrailingSpaces(s: string): (r: nat)
    ensures r <= |s|
    ensures forall k :: |s| - r <= k < |s| ==> IsSpace(s[k])
    ensures r == |s| || !IsSpace(s[|s| - r - 1])
  {
    if s != [] && IsSpace(s[|s| - 1]) then 1 + TrailingSpaces(s[..|s| - 1]) else 0
  }

  /** Python's `str.strip()`: the longest infix that neither starts nor ends
      with whitespace, obtained by removing whitespace only. */
  function Strip(s: string): (r: string)
    ensures r == [] || (!IsSpace(r[0]) && !IsSpace(r[|r| - 1]))
    ensures r == [] <==> forall k :: 0 <= k < |s| ==> IsSpace(s[k])
  {
    var a := SpaceRun(s, 0);
    if a == |s| then []
    else
      var t := TrailingSpaces(s);
      assert !IsSpace(s[a]);
      s[a .. |s| - t]
  }

  /** A string without whitespace at either end is left as it is by `Strip`. */
  lemma StripNoop(s: string)
    requires s == [] || (!IsSpace(s[0]) && !IsSpace(s[|s| - 1]))
    ensures Strip(s) == s
  {
    if s != [] {
      assert SpaceRun(s, 0) == 0;
      assert TrailingSpaces(s) == 0;
    }
  }

  lemma StripIdempotent(s: string)
    ensures Strip(Strip(s)) == Strip(s)
  {
    StripNoop(Strip(s));
  }

  /** `s[i..]` starts with `w`, comparing `s` lower-cased (`w` is lower). */
  predicate LowerAt(s: string, i: nat, w: string) {
    i + |w| <= |s| && Lower(s[i .. i + |w|]) == w
  }

  /** Python's `w in s` for strings. */
  predicate Contains(s: string, w: string)
    decreases |s|
  {
    |w| <= |s| && (s[..|w|] == w || (s != [] && Contains(s[1..], w)))
  }

  predicate StartsWith(s: string, p: string) {
    |p| <= |s| && s[..|p|] == p
  }

  /** Python's `s.replace(c, r)` for a one-character `c`: every occurrence. */
  function ReplaceChar(s: string, c: char, r: string): (t: string)
  {
    if s == [] then []
    else (if s[0] == c then r else [s[0]]) + ReplaceChar(s[1..], c, r)
  }

  /** Replacing `c` leaves alone every prefix of `s` in which `c` does not occur. */
  lemma {:induction false} ReplaceCharKeepsPrefix(s: string, c: char, r: string, k: nat)
    requires k <= |s|
    requires forall j :: 0 <= j < k ==> s[j] != c
    ensures k <= |ReplaceChar(s, c, r)| && ReplaceChar(s, c, r)[..k] == s[..k]
    decreases k
  {
    if k > 0 {
      ReplaceCharKeepsPrefix(s[1..], c, r, k - 1);
      var rest := ReplaceChar(s[1..], c, r);
      assert ReplaceChar(s, c, r) == [s[0]] + rest;
      assert ([s[0]] + rest)[..k] == [s[0]] + rest[..k - 1];
      assert s[..k] == [s[0]] + s[1..][..k - 1];
    }
  }

  lemma {:induction false} ReplaceCharAppend(a: string, b: string, c: char, r: string)
    ensures ReplaceChar(a + b, c, r) == ReplaceChar(a, c, r) + ReplaceChar(b, c, r)
    decreases |a|
  {
    if a != [] {
      assert (a + b)[1..] == a[1..] + b;
      ReplaceCharAppend(a[1..], b, c, r);
    } else {
      assert a + b == b;
    }
  }

  lemma {:induction false} ReplaceCharAbsent(s: string, c: char, r: string)
    requires forall j :: 0 <= j < |s| ==> s[j] != c
    ensures ReplaceChar(s, c, r) == s
    decreases |s|
  {
    if s != [] {
      ReplaceCharAbsent(s[1..], c, r);
      assert s == [s[0]] + s[1..];
    }
  }

  /** A prefix of the replaced text in which the replacement's first
      character does not occur (and which is not that character itself) was
      there before the replacement. */
  lemma {:induction false} ReplaceCharPrefixUntouched(s: string, c: char, r: string, k: nat)
    requires r != [] && r[0] != c
    requires k <= |ReplaceChar(s, c, r)|
    requires forall j :: 0 <= j < k ==> ReplaceChar(s, c, r)[j] != r[0]
    ensures k <= |s| && s[..k] == ReplaceChar(s, c, r)[..k]
    decreases |s|
  {
    if k > 0 {
      var rest := ReplaceChar(s[1..], c, r);
      assert ReplaceChar(s, c, r)[0] != r[0];
      assert s[0] != c;
      {
        assert ReplaceChar(s, c, r) == [s[0]] + rest;
        forall j | 0 <= j < k - 1 ensures rest[j] != r[0] {
          assert rest[j] == ReplaceChar(s, c, r)[j + 1];
        }
        ReplaceCharPrefixUntouched(s[1..], c, r, k - 1);
        assert ([s[0]] + rest)[..k] == [s[0]] + rest[..k - 1];
        assert s[..k] == [s[0]] + s[1..][..k - 1];
      }
    }
  }

  /** Python's order on str (code point by code point; a proper prefix is
      smaller), as `<=`. Dafny's own `<=` on sequences means "is a prefix". */
  predicate LexLe(a: string, b: string)
    decreases |a|
  {
    a == [] || (b != [] && (a[0] < b[0] || (a[0] == b[0] && LexLe(a[1..], b[1..]))))
  }

  lemma {:induction false} LexLeRefl(a: string)
    ensures LexLe(a, a)
    decreases |a|
  {
    if a != [] { LexLeRefl(a[1..]); }
  }

  lemma {:induction false} LexLeTotal(a: string, b: string)
    ensures LexLe(a, b) || LexLe(b, a)
    decreases |a|
  {
    if a != [] && b != [] && a[0] == b[0] { LexLeTotal(a[1..], b[1..]); }
  }

  lemma {:induction false} LexLeTrans(a: string, b: string, c: string)
    requires LexLe(a, b) && LexLe(b, c)
    ensures LexLe(a, c)
    decreases |a|
  {
    if a != [] && a[0] == b[0] && b[0] == c[0] { LexLeTrans(a[1..], b[1..], c[1..]); }
  }

  lemma {:induction false} LexLeAntisym(a: string, b: string)
    requires LexLe(a, b) && LexLe(b, a)
    ensures a == b
    decreases |a|
  {
    if a != [] {
      LexLeAntisym(a[1..], b[1..]);
      assert a == [a[0]] + a[1..] && b == [b[0]] + b[1..];
    }
  }
}
