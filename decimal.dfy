/** Decimal formatting (`format(n, "0{w}d")`, `str(n)`), parsing (`int(s)`) and
    string ordering, as used for the pipeline's file and folder names. */
module Decimal {

  /** An ASCII decimal digit. */
  predicate IsDigit(c: char) {
    '0' <= c <= '9'
  }

  /** `s.isdigit()` without the non-empty requirement, over ASCII digits. */
  predicate AllDigits(s: string) {
    forall i :: 0 <= i < |s| ==> IsDigit(s[i])
  }

  function DigitValue(c: char): (d: nat)
    requires IsDigit(c)
    ensures d < 10
  {
    c as int - '0' as int
  }

  function DigitChar(d: nat): (c: char)
    requires d < 10
    ensures IsDigit(c) && DigitValue(c) == d
  {
    ('0' as int + d) as char
  }

  function Pow10(n: nat): (p: nat)
    ensures p >= 1
  {
    if n == 0 then 1 else 10 * Pow10(n - 1)
  }

  /** `int(s)` for a string of decimal digits (leading zeros allowed). */
  function Value(s: string): nat
    requires AllDigits(s)
  {
    if s == [] then 0 else Value(s[..|s| - 1]) * 10 + DigitValue(s[|s| - 1])
  }

  /** `format(n, "0{w}d")`: the decimal digits of `n`, padded on the left with
      zeros to at least `w` characters; `Format(n, 1)` is `str(n)`. */
  function Format(n: nat, w: nat): (s: string)
    ensures AllDigits(s)
    ensures |s| >= 1 && |s| >= w
    decreases n + w
  {
    if n < 10 && w <= 1 then [DigitChar(n)]
    else Format(n / 10, if w == 0 then 0 else w - 1) + [DigitChar(n % 10)]
  }

  /** `min(a, b)`. */
  function Min(a: int, b: int): int {
    if a < b then a else b
  }

  /** `ceil(n / k)` for a positive `k`. */
  function CeilDiv(n: nat, k: nat): nat
    requires k > 0
  {
    (n + k - 1) / k
  }

  /** A non-zero multiple of `k` is at least `k` away from zero. */
  lemma MultipleOfPositive(e: int, k: int)
    requires k > 0
    ensures e >= 1 ==> e * k >= k
    ensures e <= -1 ==> e * k <= -k
  {
  }

  /** Euclidean division of `q * k + x` by `k`, for `0 <= x < k`. */
  lemma DivideOut(q: int, k: int, x: int)
    requires k > 0 && 0 <= x < k
    ensures (q * k + x) / k == q && (q * k + x) % k == x
  {
    var n := q * k + x;
    var d, r := n / k, n % k;
    assert d * k + r == q * k + x && 0 <= r < k;
    assert (d - q) * k == x - r;
    MultipleOfPositive(d - q, k);
  }

  /** One more element raises `ceil(n / k)` exactly when `n` is a multiple of `k`. */
  lemma CeilDivStep(n: nat, k: nat)
    requires k > 0
    ensures CeilDiv(n + 1, k) == CeilDiv(n, k) + (if n % k == 0 then 1 else 0)
    ensures n % k == 0 ==> CeilDiv(n, k) * k == n
  {
    var q, r := n / k, n % k;
    assert n == q * k + r;
    if r == 0 {
      DivideOut(q, k, k - 1);
      DivideOut(q + 1, k, 0);
      assert n + k - 1 == q * k + (k - 1);
      assert n + 1 + k - 1 == (q + 1) * k + 0;
    } else {
      DivideOut(q + 1, k, r - 1);
      DivideOut(q + 1, k, r);
      assert n + k - 1 == (q + 1) * k + (r - 1);
      assert n + 1 + k - 1 == (q + 1) * k + r;
    }
  }

  /** Python's `s < t` on strings: lexicographic by code point. */
  predicate LexLess(s: string, t: string)
    decreases |s|
  {
    if s == [] then t != []
    else t != [] && (s[0] < t[0] || (s[0] == t[0] && LexLess(s[1..], t[1..])))
  }

  /** Formatting and parsing are inverse: `int(format(n, "0{w}d")) == n`. */
  lemma {:induction false} ValueOfFormat(n: nat, w: nat)
    ensures Value(Format(n, w)) == n
    decreases n + w
  {
    if !(n < 10 && w <= 1) {
      var w' := if w == 0 then 0 else w - 1;
      ValueOfFormat(n / 10, w');
      var s := Format(n / 10, w');
      assert Format(n, w) == s + [DigitChar(n % 10)];
      assert (s + [DigitChar(n % 10)])[..|s|] == s;
    }
  }

  /** A number below 10^w formats to exactly `w` characters (one when `w` is 0). */
  lemma {:induction false} FormatWidth(n: nat, w: nat)
    requires n < Pow10(w)
    ensures |Format(n, w)| == if w == 0 then 1 else w
    decreases w
  {
    if !(n < 10 && w <= 1) {
      assert w >= 1;
      assert n / 10 < Pow10(w - 1);
      FormatWidth(n / 10, w - 1);
    }
  }

  /** The value of `k` digits is below 10^k. */
  lemma {:induction false} ValueBound(s: string)
    requires AllDigits(s)
    ensures Value(s) < Pow10(|s|)
  {
    if s != [] {
      ValueBound(s[..|s| - 1]);
    }
  }

  /** Reading the leading digit first. */
  lemma {:induction false} ValueFront(c: char, s: string)
    requires IsDigit(c) && AllDigits(s)
    ensures AllDigits([c] + s)
    ensures Value([c] + s) == DigitValue(c) * Pow10(|s|) + Value(s)
    decreases |s|
  {
    assert AllDigits([c] + s) by {
      forall i | 0 <= i < |[c] + s| ensures IsDigit(([c] + s)[i]) {
        if i > 0 { assert ([c] + s)[i] == s[i - 1]; }
      }
    }
    if s != [] {
      var s' := s[..|s| - 1];
      assert ([c] + s)[..|[c] + s| - 1] == [c] + s';
      ValueFront(c, s');
      var d := DigitValue(c);
      calc {
        Value([c] + s);
        Value([c] + s') * 10 + DigitValue(s[|s| - 1]);
        (d * Pow10(|s'|) + Value(s')) * 10 + DigitValue(s[|s| - 1]);
        { assert (d * Pow10(|s'|)) * 10 == d * Pow10(|s|); }
        d * Pow10(|s|) + Value(s);
      }
    }
  }

  /** A larger leading digit outweighs everything after it. */
  lemma LeadingDigitDominates(a: nat, b: nat, x: nat, y: nat, P: nat)
    requires a > b && x < P && y < P
    ensures a * P + x > b * P + y
  {
    assert a * P >= (b + 1) * P;
  }

  /** For digit strings of equal length, a smaller value means a lexicographically smaller string. */
  lemma {:induction false} LexLessOfValue(p: string, q: string)
    requires |p| == |q| && AllDigits(p) && AllDigits(q)
    requires Value(p) < Value(q)
    ensures LexLess(p, q)
    decreases |p|
  {
    assert q != [];
    var a, b := p[0], q[0];
    var p', q' := p[1..], q[1..];
    assert p == [a] + p' && q == [b] + q';
    ValueFront(a, p');
    ValueFront(b, q');
    ValueBound(p');
    ValueBound(q');
    if DigitValue(a) > DigitValue(b) {
      LeadingDigitDominates(DigitValue(a), DigitValue(b), Value(p'), Value(q'), Pow10(|p'|));
      assert false;
    } else if DigitValue(a) == DigitValue(b) {
      LexLessOfValue(p', q');
    }
  }

  lemma {:induction false} LexLessIrreflexive(s: string)
    ensures !LexLess(s, s)
    decreases |s|
  {
    if s != [] {
      LexLessIrreflexive(s[1..]);
    }
  }

  lemma {:induction false} LexLessAsymmetric(s: string, t: string)
    requires LexLess(s, t)
    ensures !LexLess(t, s)
    decreases |s|
  {
    if s != [] && s[0] == t[0] {
      LexLessAsymmetric(s[1..], t[1..]);
    }
  }

  /** A common prefix does not change the order. */
  lemma {:induction false} LexLessPrepend(c: string, s: string, t: string)
    requires LexLess(s, t)
    ensures LexLess(c + s, c + t)
    decreases |c|
  {
    if c == [] {
      assert c + s == s && c + t == t;
    } else {
      LexLessPrepend(c[1..], s, t);
      assert (c + s)[1..] == c[1..] + s;
      assert (c + t)[1..] == c[1..] + t;
    }
  }

  /** Between strings of equal length the order is decided inside them, whatever follows. */
  lemma {:induction false} LexLessAppend(s: string, t: string, x: string, y: string)
    requires |s| == |t| && LexLess(s, t)
    ensures LexLess(s + x, t + y)
    decreases |s|
  {
    assert s != [];
    if s[0] == t[0] {
      LexLessAppend(s[1..], t[1..], x, y);
      assert (s + x)[1..] == s[1..] + x;
      assert (t + y)[1..] == t[1..] + y;
    }
  }
}
