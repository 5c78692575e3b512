/** Output file names of frame extraction.

    The padded variant writes `frame_<saved:05d>.jpg`; the plain variant writes
    `frame_<saved>.jpg`. Both are built from Python's decimal rendering of a
    non-negative integer. This module proves that the names can be decoded back
    to their counter (so they are pairwise distinct), that padded names sort in
    emission order below 100000, and that plain names do not. */
module FrameNames {

  /** How the saved-frame counter is rendered inside the name. */
  datatype NameStyle =
    | Padded   // f"frame_{saved:05d}.jpg"
    | Plain    // f"frame_{saved}.jpg"

  predicate IsDigit(c: char) {
    '0' <= c <= '9'
  }

  predicate AllDigits(s: string) {
    forall i :: 0 <= i < |s| ==> IsDigit(s[i])
  }

  function DigitChar(d: nat): (c: char)
    requires d < 10
    ensures IsDigit(c) && c as int - '0' as int == d
  {
    ('0' as int + d) as char
  }

  function DigitValue(c: char): nat
    requires IsDigit(c)
  {
    c as int - '0' as int
  }

  function Pow10(n: nat): (p: nat)
    ensures p >= 1
  {
    if n == 0 then 1 else 10 * Pow10(n - 1)
  }

  /** Python's `str(k)` for a non-negative integer: shortest decimal form. */
  function Decimal(k: nat): (s: string)
    ensures |s| >= 1 && AllDigits(s)
  {
    if k < 10 then [DigitChar(k)] else Decimal(k / 10) + [DigitChar(k % 10)]
  }

  function Zeros(n: nat): (s: string)
    ensures |s| == n
  {
    if n == 0 then [] else ['0'] + Zeros(n - 1)
  }

  /** The `0<width>d` format: pad on the left with '0' up to `width`; longer
      renderings are left as they are. */
  function ZeroPad(s: string, width: nat): string {
    if |s| >= width then s else Zeros(width - |s|) + s
  }

  /** The counter part of a name. */
  function Counter(style: NameStyle, k: nat): string {
    match style
    case Padded => ZeroPad(Decimal(k), 5)
    case Plain => Decimal(k)
  }

  function FrameName(style: NameStyle, k: nat): string {
    "frame_" + Counter(style, k) + ".jpg"
  }

  /** Value of a digit string, most significant digit first. */
  function Value(s: string): nat
    requires AllDigits(s)
  {
    if s == [] then 0 else Value(s[..|s| - 1]) * 10 + DigitValue(s[|s| - 1])
  }

  /** Strict lexicographic order on strings, as Python compares `str`. */
  predicate LexLess(a: string, b: string)
    decreases |a|
  {
    if a == [] then b != []
    else if b == [] then false
    else if a[0] != b[0] then a[0] < b[0]
    else LexLess(a[1..], b[1..])
  }

  // ---------------------------------------------------------------------
  // Decoding: Value inverts Decimal, padding and naming
  // ---------------------------------------------------------------------

  lemma {:induction false} DecimalRoundTrip(k: nat)
    ensures Value(Decimal(k)) == k
  {
    if k >= 10 {
      var s := Decimal(k);
      assert s[..|s| - 1] == Decimal(k / 10);
      DecimalRoundTrip(k / 10);
    }
  }

  lemma {:induction false} ZerosValue(n: nat, s: string)
    requires AllDigits(s)
    ensures AllDigits(Zeros(n) + s) && Value(Zeros(n) + s) == Value(s)
    decreases |s|, n
  {
    var z := Zeros(n);
    assert forall i :: 0 <= i < n ==> z[i] == '0' by {
      ZerosAreZero(n);
    }
    if s == [] {
      assert z + s == z;
      if n > 0 {
        assert z[..n - 1] == Zeros(n - 1) by { ZerosSplit(n); }
        ZerosValue(n - 1, []);
        assert Zeros(n - 1) + [] == Zeros(n - 1);
      }
    } else {
      var t := s[..|s| - 1];
      assert (z + s)[..|z + s| - 1] == z + t;
      ZerosValue(n, t);
    }
  }

  lemma {:induction false} ZerosAreZero(n: nat)
    ensures forall i :: 0 <= i < n ==> Zeros(n)[i] == '0'
  {
    if n > 0 {
      ZerosAreZero(n - 1);
    }
  }

  lemma {:induction false} ZerosSplit(n: nat)
    requires n > 0
    ensures Zeros(n) == Zeros(n - 1) + ['0']
  {
    if n > 1 {
      ZerosSplit(n - 1);
      assert Zeros(n) == ['0'] + (Zeros(n - 2) + ['0']);
    }
  }

  lemma CounterDigits(style: NameStyle, k: nat)
    ensures AllDigits(Counter(style, k)) && Value(Counter(style, k)) == k
  {
    DecimalRoundTrip(k);
    var d := Decimal(k);
    if style == Padded && |d| < 5 {
      ZerosValue(5 - |d|, d);
    }
  }

  /** The counter can be read back out of a name. */
  lemma NameDecodes(style: NameStyle, k: nat)
    ensures var n := FrameName(style, k);
            |n| >= 11 && AllDigits(n[6..|n| - 4]) && Value(n[6..|n| - 4]) == k
  {
    var n := FrameName(style, k);
    assert n[6..|n| - 4] == Counter(style, k);
    CounterDigits(style, k);
  }

  /** Distinct counters give distinct file names, in both styles, for every
      counter value: no written frame overwrites another. */
  lemma NamesInjective(style: NameStyle, j: nat, k: nat)
    requires FrameName(style, j) == FrameName(style, k)
    ensures j == k
  {
    NameDecodes(style, j);
    NameDecodes(style, k);
  }

  // ---------------------------------------------------------------------
  // Ordering
  // ---------------------------------------------------------------------

  lemma {:induction false} ValueBound(s: string)
    requires AllDigits(s)
    ensures Value(s) < Pow10(|s|)
  {
    if s != [] {
      ValueBound(s[..|s| - 1]);
    }
  }

  /** Value read from the front: the leading digit weighs 10^(|s|-1). */
  lemma {:induction false} ValueFront(s: string)
    requires AllDigits(s) && s != []
    ensures Value(s) == DigitValue(s[0]) * Pow10(|s| - 1) + Value(s[1..])
  {
    if |s| > 1 {
      var t := s[..|s| - 1];
      ValueFront(t);
      assert t[1..] == s[1..][..|s| - 2];
      var d := DigitValue(s[0]);
      calc {
        Value(s);
        Value(t) * 10 + DigitValue(s[|s| - 1]);
        (d * Pow10(|s| - 2) + Value(t[1..])) * 10 + DigitValue(s[|s| - 1]);
        { assert d * Pow10(|s| - 2) * 10 == d * Pow10(|s| - 1); }
        d * Pow10(|s| - 1) + Value(s[1..]);
      }
    }
  }

  /** For digit strings of equal length, numeric order is lexicographic order. */
  lemma {:induction false} LexFromValue(a: string, b: string)
    requires AllDigits(a) && AllDigits(b) && |a| == |b|
    requires Value(a) < Value(b)
    ensures LexLess(a, b)
    decreases |a|
  {
    ValueFront(a);
    ValueFront(b);
    var da, db := DigitValue(a[0]), DigitValue(b[0]);
    if da == db {
      LexFromValue(a[1..], b[1..]);
    } else if db < da {
      ValueBound(b[1..]);
      LeadingDigitDominates(db, da, Pow10(|a| - 1), Value(b[1..]));
      assert false;
    }
  }

  /** A larger leading digit outweighs any rest below the weight p. */
  lemma LeadingDigitDominates(x: nat, y: nat, p: nat, r: nat)
    requires x < y && r < p
    ensures x * p + r < y * p
  {
    MulMonotone(x + 1, y, p);
  }

  lemma {:induction false} MulMonotone(x: nat, y: nat, p: nat)
    requires x <= y
    ensures x * p <= y * p
    decreases y - x
  {
    if x < y {
      MulMonotone(x + 1, y, p);
    }
  }

  /** Inserting an ordered pair of equal-length middles between a common
      prefix and any suffixes keeps the order. */
  lemma {:induction false} LexInContext(p: string, a: string, b: string, q: string, r: string)
    requires |a| == |b| && LexLess(a, b)
    ensures LexLess(p + a + q, p + b + r)
    decreases |p| + |a|
  {
    if p != [] {
      assert (p + a + q)[1..] == p[1..] + a + q;
      assert (p + b + r)[1..] == p[1..] + b + r;
      LexInContext(p[1..], a, b, q, r);
    } else {
      assert p + a + q == a + q && p + b + r == b + r;
      if a[0] == b[0] {
        assert (a + q)[1..] == a[1..] + q;
        assert (b + r)[1..] == b[1..] + r;
        LexInContext([], a[1..], b[1..], q, r);
        assert [] + a[1..] + q == a[1..] + q && [] + b[1..] + r == b[1..] + r;
      }
    }
  }

  lemma PaddedWidth(k: nat)
    requires k < 100000
    ensures |Counter(Padded, k)| == 5
  {
    DecimalLength(k, 5);
  }

  lemma {:induction false} DecimalLength(k: nat, w: nat)
    requires 1 <= w && k < Pow10(w)
    ensures |Decimal(k)| <= w
  {
    if k >= 10 {
      DecimalLength(k / 10, w - 1);
    }
  }

  /** Padded names sort in emission order while the counter has at most five
      digits. */
  lemma PaddedNamesSorted(j: nat, k: nat)
    requires j < k < 100000
    ensures LexLess(FrameName(Padded, j), FrameName(Padded, k))
  {
    PaddedWidth(j);
    PaddedWidth(k);
    CounterDigits(Padded, j);
    CounterDigits(Padded, k);
    LexFromValue(Counter(Padded, j), Counter(Padded, k));
    LexInContext("frame_", Counter(Padded, j), Counter(Padded, k), ".jpg", ".jpg");
  }

  /** At 100000 the padding no longer applies and the order breaks:
      `frame_100000.jpg` sorts before `frame_99999.jpg`. */
  lemma PaddedOrderBreaksAt100000()
    ensures LexLess(FrameName(Padded, 100000), FrameName(Padded, 99999))
  {
    PaddedWidth(99999);
    DecimalLength(100000, 6);
    LeadingDigit(100000); LeadingDigit(10000); LeadingDigit(1000); LeadingDigit(100); LeadingDigit(10);
    LeadingDigit(99999); LeadingDigit(9999); LeadingDigit(999); LeadingDigit(99);
    assert Decimal(100000)[0] == '1';
    assert Decimal(99999)[0] == '9';
    LexFirstDiff("frame_", Counter(Padded, 100000), Counter(Padded, 99999));
  }

  /** Plain names do not sort in emission order: `frame_10.jpg` sorts before
      `frame_2.jpg`. */
  lemma PlainNamesUnsorted()
    ensures LexLess(FrameName(Plain, 10), FrameName(Plain, 2))
  {
    assert Decimal(10)[0] == '1';
    assert Decimal(2)[0] == '2';
    LexFirstDiff("frame_", Counter(Plain, 10), Counter(Plain, 2));
  }

  /** A number's rendering starts with the rendering of its first digits. */
  lemma LeadingDigit(k: nat)
    requires k >= 10
    ensures Decimal(k)[0] == Decimal(k / 10)[0]
  {
  }

  /** Strings with a common prefix compare by their first differing character. */
  lemma {:induction false} LexFirstDiff(p: string, a: string, b: string)
    requires a != [] && b != [] && a[0] < b[0]
    ensures LexLess(p + a + ".jpg", p + b + ".jpg")
    decreases |p|
  {
    if p != [] {
      assert (p + a + ".jpg")[1..] == p[1..] + a + ".jpg";
      assert (p + b + ".jpg")[1..] == p[1..] + b + ".jpg";
      LexFirstDiff(p[1..], a, b);
    } else {
      assert p + a + ".jpg" == a + ".jpg";
      assert p + b + ".jpg" == b + ".jpg";
    }
  }
}
