// Decimal text: what itoa (logger.go) prints and how it reads back.
module Decimals {
  predicate IsDigit(c: char) {
    '0' <= c <= '9'
  }

  predicate AllDigits(s: string) {
    forall i :: 0 <= i < |s| ==> IsDigit(s[i])
  }

  function Digit(d: nat): (c: char)
    requires d < 10
    ensures IsDigit(c) && DigitValue(c) == d
  {
    ('0' as int + d) as char
  }

  function DigitValue(c: char): nat
    requires IsDigit(c)
  {
    c as int - '0' as int
  }

  // The number that decimal digits denote.
  function Value(s: string): nat
    requires AllDigits(s)
  {
    if s == "" then 0 else Value(s[..|s| - 1]) * 10 + DigitValue(s[|s| - 1])
  }

  function Pow10(k: nat): (p: nat)
    ensures p >= 1
  {
    if k == 0 then 1 else 10 * Pow10(k - 1)
  }

  // The text of n, padded with zeros on the left up to the given width.
  function Padded(n: nat, wid: int): (s: string)
    ensures s != "" && AllDigits(s)
    decreases n, if wid > 0 then wid else 0
  {
    if n < 10 && wid <= 1 then [Digit(n)]
    else Padded(n / 10, wid - 1) + [Digit(n % 10)]
  }

  // The text without padding.
  function Decimal(n: nat): (s: string)
    ensures s != "" && AllDigits(s)
  {
    Padded(n, 0)
  }

  // The text denotes the number, whatever the width.
  lemma {:induction false} PaddedValue(n: nat, wid: int)
    ensures Value(Padded(n, wid)) == n
    decreases n, if wid > 0 then wid else 0
  {
    var s := Padded(n, wid);
    if n < 10 && wid <= 1 {
      assert s[..0] == "";
    } else {
      PaddedValue(n / 10, wid - 1);
      assert s[..|s| - 1] == Padded(n / 10, wid - 1);
    }
  }

  // Narrow widths do not pad, and only the width matters otherwise.
  lemma {:induction false} NarrowIsDecimal(n: nat, wid: int, wid': int)
    requires wid <= 1 && wid' <= 1
    ensures Padded(n, wid) == Padded(n, wid')
    decreases n
  {
    if n >= 10 {
      NarrowIsDecimal(n / 10, wid - 1, wid' - 1);
    }
  }

  // The length is the width, or the number of digits when that is larger.
  lemma {:induction false} PaddedLength(n: nat, wid: int)
    ensures |Padded(n, wid)| == if wid > |Decimal(n)| then wid else |Decimal(n)|
    decreases n, if wid > 0 then wid else 0
  {
    if n < 10 {
      if wid > 1 {
        PaddedLength(n / 10, wid - 1);
      }
    } else {
      PaddedLength(n / 10, wid - 1);
      NarrowIsDecimal(n / 10, -1, 0);
      assert |Decimal(n)| == |Decimal(n / 10)| + 1;
    }
  }

  // The number of digits: the least power of ten above n, with one digit for zero.
  lemma {:induction false} DecimalLength(n: nat, k: nat)
    requires k >= 1
    ensures |Decimal(n)| <= k <==> n < Pow10(k)
    decreases n
  {
    if n >= 10 {
      NarrowIsDecimal(n / 10, -1, 0);
      assert |Decimal(n)| == |Decimal(n / 10)| + 1;
      if k > 1 {
        DecimalLength(n / 10, k - 1);
      } else {
        assert Pow10(1) == 10 * Pow10(0);
      }
    } else {
      assert Pow10(k) == 10 * Pow10(k - 1);
    }
  }

  lemma {:induction false} ValueAppend(s: string, c: char)
    requires AllDigits(s) && IsDigit(c)
    ensures Value(s + [c]) == Value(s) * 10 + DigitValue(c)
  {
    assert (s + [c])[..|s|] == s;
  }

  // Digits of one length that denote the same number are the same digits, so value and length
  // together determine the text.
  lemma {:induction false} ValueInjective(s: string, t: string)
    requires AllDigits(s) && AllDigits(t) && |s| == |t| && Value(s) == Value(t)
    ensures s == t
  {
    if s != "" {
      var n := |s| - 1;
      var a, b, x, y := s[..n], t[..n], s[n], t[n];
      assert s == a + [x] && t == b + [y];
      ValueAppend(a, x);
      ValueAppend(b, y);
      ValueInjective(a, b);
    }
  }

  lemma {:induction false} Regroup(h: nat, p: nat, v: nat, d: nat)
    ensures (h * p + v) * 10 + d == h * (10 * p) + (v * 10 + d)
  {
  }

  // Appending digits multiplies by a power of ten and adds their value.
  lemma {:induction false} ValueConcat(head: string, tail: string)
    requires AllDigits(head) && AllDigits(tail)
    ensures Value(head + tail) == Value(head) * Pow10(|tail|) + Value(tail)
    ensures Value(tail) < Pow10(|tail|)
    decreases |tail|
  {
    if tail == "" {
      assert head + tail == head;
    } else {
      var n := |tail| - 1;
      var init, c := tail[..n], tail[n];
      assert tail == init + [c] && head + tail == (head + init) + [c];
      ValueConcat(head, init);
      ValueAppend(init, c);
      ValueAppend(head + init, c);
      Regroup(Value(head), Pow10(n), Value(init), DigitValue(c));
    }
  }

  lemma {:induction false} QuotientAtLeast(p: nat, k: nat, tail: nat, y: nat)
    requires tail < k
    ensures y <= p <==> y * k <= p * k + tail
  {
    if y <= p {
      assert (p - y) * k >= 0;
      assert (p - y) * k == p * k - y * k;
    } else {
      assert (y - p - 1) * k >= 0;
      assert (y - p - 1) * k == y * k - p * k - k;
    }
  }

  // So the first digits are at least y exactly when the whole number is at least y with a zero
  // appended for each of the other digits.
  lemma {:induction false} LeadingDigitsAtLeast(head: string, tail: string, y: nat)
    requires AllDigits(head) && AllDigits(tail)
    ensures y <= Value(head) <==> y * Pow10(|tail|) <= Value(head + tail)
  {
    ValueConcat(head, tail);
    QuotientAtLeast(Value(head), Pow10(|tail|), Value(tail), y);
  }

  lemma {:induction false} MaxIntBelowPow10()
    ensures 0x8000_0000_0000_0000 < Pow10(19)
  {
    assert Pow10(5) == 100_000;
    assert Pow10(10) == 10_000_000_000;
    assert Pow10(15) == 1_000_000_000_000_000;
  }

  // The 20 bytes of itoa's buffer hold every non-negative 64-bit number exactly when the
  // width is at most 20.
  lemma {:induction false} FitsBufferIff(n: nat, wid: int)
    requires n < 0x8000_0000_0000_0000
    ensures |Padded(n, wid)| <= 20 <==> wid <= 20
  {
    MaxIntBelowPow10();
    DecimalLength(n, 19);
    PaddedLength(n, wid);
  }
}
