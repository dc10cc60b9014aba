/** ASCII decimal digits: the removal of every non-digit that the legacy
    parser applies to each part, Python's `int()` of the stripped text, and its inverse, the
    (optionally zero-padded) decimal rendering of a natural number.

    `Value` and `Padded` are a bijection between digit strings of a fixed
    width w and the naturals below 10^w; the document-number round trips rest
    on that.
 */
module Digits {

  predicate IsDigit(c: char) {
    '0' <= c <= '9'
  }

  predicate AllDigits(s: string) {
    forall i :: 0 <= i < |s| ==> IsDigit(s[i])
  }

  /** An all-digit string contains no other character. */
  lemma AllDigitsMembers(s: string)
    requires AllDigits(s)
    ensures forall c :: c in s ==> IsDigit(c)
  {
    forall c | c in s ensures IsDigit(c) {
      var i :| 0 <= i < |s| && s[i] == c;
    }
  }

  predicate HasDigit(s: string) {
    exists i :: 0 <= i < |s| && IsDigit(s[i])
  }

  /** The digits of `s`, in order: every other character removed. */
  function StripNonDigits(s: string): (r: string)
    ensures AllDigits(r)
    ensures |r| <= |s|
    ensures r == [] <==> !HasDigit(s)
    ensures forall i :: 0 <= i < |r| ==> r[i] in s
    ensures AllDigits(s) ==> r == s
  {
    if s == [] then []
    else if IsDigit(s[0]) then
      var rest := StripNonDigits(s[1..]);
      assert HasDigit(s) by { assert IsDigit(s[0]); }
      [s[0]] + rest
    else
      var rest := StripNonDigits(s[1..]);
      assert HasDigit(s) <==> HasDigit(s[1..]) by {
        if HasDigit(s) {
          var i :| 0 <= i < |s| && IsDigit(s[i]);
          assert i > 0 && IsDigit(s[1..][i - 1]);
        }
        if HasDigit(s[1..]) {
          var i :| 0 <= i < |s[1..]| && IsDigit(s[1..][i]);
          assert IsDigit(s[i + 1]);
        }
      }
      rest
  }

  /** Stripping distributes over concatenation: every character is kept or
      dropped on its own. */
  lemma {:induction false} StripAppend(a: string, b: string)
    ensures StripNonDigits(a + b) == StripNonDigits(a) + StripNonDigits(b)
  {
    if a == [] {
      assert a + b == b;
    } else {
      assert (a + b)[0] == a[0];
      assert (a + b)[1..] == a[1..] + b;
      StripAppend(a[1..], b);
    }
  }

  function DigitValue(c: char): (d: nat)
    requires IsDigit(c)
    ensures d < 10
  {
    (c as int) - ('0' as int)
  }

  function DigitChar(d: nat): (c: char)
    requires d < 10
    ensures IsDigit(c) && DigitValue(c) == d
  {
    (('0' as int) + d) as char
  }

  function Pow10(n: nat): (r: nat)
    ensures r >= 1
  {
    if n == 0 then 1 else 10 * Pow10(n - 1)
  }

  lemma {:induction false} Pow10Monotone(a: nat, b: nat)
    requires a <= b
    ensures Pow10(a) <= Pow10(b)
  {
    if a < b {
      Pow10Monotone(a, b - 1);
    }
  }

  /** A leading digit d < 10 at weight p, plus a remainder below p, stays
      below 10 p. */
  lemma LeadingDigitBound(d: nat, p: nat, rest: nat)
    requires d < 10 && rest < p
    ensures d * p + rest < 10 * p
  {
    MulMonotone(d, 9, p);
  }

  /** Python's `int(s)` for a string of ASCII digits, most significant digit
      first; leading zeros are accepted. */
  function Value(s: string): (r: nat)
    requires AllDigits(s)
    ensures r < Pow10(|s|)
  {
    if s == [] then 0
    else
      var d := DigitValue(s[0]);
      var rest := Value(s[1..]);
      var p := Pow10(|s| - 1);
      assert d * p + rest < 10 * p by {
        LeadingDigitBound(d, p, rest);
      }
      d * p + rest
  }

  /** Appending a digit shifts the value one decimal place. */
  lemma {:induction false} ValueAppendDigit(s: string, c: char)
    requires AllDigits(s) && IsDigit(c)
    ensures AllDigits(s + [c])
    ensures Value(s + [c]) == 10 * Value(s) + DigitValue(c)
  {
    var t := s + [c];
    assert AllDigits(t) by {
      forall i | 0 <= i < |t| ensures IsDigit(t[i]) {
        if i < |s| { assert t[i] == s[i]; }
      }
    }
    if s != [] {
      assert t[0] == s[0];
      assert t[1..] == s[1..] + [c];
      ValueAppendDigit(s[1..], c);
      var d := DigitValue(s[0]);
      var p := Pow10(|s| - 1);
      assert Pow10(|t| - 1) == 10 * p;
      assert Value(t) == d * (10 * p) + (10 * Value(s[1..]) + DigitValue(c));
      ShiftLeft(d, p, Value(s[1..]), DigitValue(c));
    }
  }

  /** The arithmetic step of `ValueAppendDigit`. */
  lemma ShiftLeft(d: nat, p: nat, v: nat, c: nat)
    ensures d * (10 * p) + (10 * v + c) == 10 * (d * p + v) + c
  {
    assert d * (10 * p) == 10 * (d * p);
  }

  /** Leading zeros do not change the value. */
  lemma {:induction false} ValueLeadingZeros(k: nat, s: string)
    requires AllDigits(s)
    ensures AllDigits(Zeros(k) + s)
    ensures Value(Zeros(k) + s) == Value(s)
  {
    var t := Zeros(k) + s;
    assert AllDigits(t) by {
      forall i | 0 <= i < |t| ensures IsDigit(t[i]) {
        if i >= k { assert t[i] == s[i - k]; }
      }
    }
    if k > 0 {
      assert t[0] == '0' && DigitValue(t[0]) == 0;
      assert t[1..] == Zeros(k - 1) + s;
      assert Value(t) == Value(t[1..]);
      ValueLeadingZeros(k - 1, s);
    } else {
      assert t == s;
    }
  }

  /** Positional notation is unambiguous: a leading digit times 10^k plus a
      remainder below 10^k determines both. */
  lemma PositionalUnique(a: nat, u: nat, b: nat, v: nat, p: nat)
    requires u < p && v < p
    requires a * p + u == b * p + v
    ensures a == b && u == v
  {
    if a < b {
      MulMonotone(a + 1, b, p);
      assert false;
    } else if b < a {
      MulMonotone(b + 1, a, p);
      assert false;
    }
  }

  lemma MulMonotone(x: nat, y: nat, p: nat)
    requires x <= y
    ensures x * p <= y * p
  {
  }

  /** Two digit strings of the same width with the same value are equal. */
  lemma {:induction false} ValueInjective(s: string, t: string)
    requires AllDigits(s) && AllDigits(t) && |s| == |t|
    requires Value(s) == Value(t)
    ensures s == t
  {
    if s != [] {
      PositionalUnique(DigitValue(s[0]), Value(s[1..]), DigitValue(t[0]), Value(t[1..]), Pow10(|s| - 1));
      assert s[0] == t[0];
      ValueInjective(s[1..], t[1..]);
      assert s == [s[0]] + s[1..];
      assert t == [t[0]] + t[1..];
    }
  }

  /** `str(n)`: the decimal digits of `n`, without leading zeros. */
  function Render(n: nat): (r: string)
    ensures AllDigits(r) && |r| >= 1
    ensures r[0] == '0' ==> n == 0
  {
    if n < 10 then [DigitChar(n)]
    else
      var front := Render(n / 10);
      var r := front + [DigitChar(n % 10)];
      assert AllDigits(r) by {
        forall i | 0 <= i < |r| ensures IsDigit(r[i]) {
          if i < |front| { assert r[i] == front[i]; }
        }
      }
      assert r[0] == front[0];
      r
  }

  /** Rendering is a right inverse of `Value`. */
  lemma {:induction false} ValueOfRender(n: nat)
    ensures Value(Render(n)) == n
  {
    if n >= 10 {
      ValueOfRender(n / 10);
      ValueAppendDigit(Render(n / 10), DigitChar(n % 10));
    }
  }

  /** A number below 10^w renders to at most w digits (w >= 1). */
  lemma {:induction false} RenderWidth(n: nat, w: nat)
    requires 1 <= w && n < Pow10(w)
    ensures |Render(n)| <= w
  {
    if n >= 10 {
      assert Pow10(1) == 10;
      assert w >= 2;
      assert n / 10 < Pow10(w - 1);
      RenderWidth(n / 10, w - 1);
    }
  }

  function Zeros(k: nat): (r: string)
    ensures |r| == k
    ensures forall i :: 0 <= i < k ==> r[i] == '0'
  {
    seq(k, _ => '0')
  }

  /** `n` rendered in decimal and left-padded with zeros to at least `width`
      characters, as in the conventional `PPPP-NNNNNNNN` notation. */
  function Padded(n: nat, width: nat): (r: string)
    ensures AllDigits(r) && |r| >= 1 && |r| >= width
    ensures 1 <= width && n < Pow10(width) ==> |r| == width
  {
    var d := Render(n);
    assert 1 <= width && n < Pow10(width) ==> |d| <= width by {
      if 1 <= width && n < Pow10(width) { RenderWidth(n, width); }
    }
    if |d| < width then
      var r := Zeros(width - |d|) + d;
      assert AllDigits(r) by { ValueLeadingZeros(width - |d|, d); }
      r
    else d
  }

  /** Reading a padded rendering gives the number back. */
  lemma ValueOfPadded(n: nat, width: nat)
    ensures Value(Padded(n, width)) == n
  {
    var d := Render(n);
    ValueOfRender(n);
    if |d| < width {
      ValueLeadingZeros(width - |d|, d);
    }
  }

  /** Every non-empty digit string is the padded rendering of its own value
      at its own width: the fixed-width fields of a document number are
      exactly the padded numbers. */
  lemma PaddedOfValue(s: string)
    requires AllDigits(s) && |s| >= 1
    ensures Padded(Value(s), |s|) == s
  {
    var p := Padded(Value(s), |s|);
    ValueOfPadded(Value(s), |s|);
    ValueInjective(p, s);
  }
}
