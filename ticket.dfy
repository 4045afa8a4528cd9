/** The ticket number `TKT-${Date.now().toString().slice(-8)}`: decimal
    formatting of a millisecond timestamp, `String.prototype.slice` with a
    negative start, and what the resulting ticket looks like. */
module Ticket {

  const Prefix: string := "TKT-"

  /** Number of trailing timestamp digits kept in a ticket. */
  const Width: nat := 8

  function Pow10(k: nat): (p: nat)
    ensures p >= 1
  {
    if k == 0 then 1 else 10 * Pow10(k - 1)
  }

  predicate IsDigit(c: char) {
    '0' <= c <= '9'
  }

  predicate AllDigits(s: string) {
    forall k :: 0 <= k < |s| ==> IsDigit(s[k])
  }

  function DigitChar(d: nat): (c: char)
    requires d < 10
    ensures IsDigit(c)
  {
    ('0' as int + d) as char
  }

  function DigitValue(c: char): (d: nat)
    requires IsDigit(c)
    ensures d < 10
  {
    c as int - '0' as int
  }

  /** `n.toString()` for a non-negative integer: its decimal digits, most
      significant first, with no leading zero. */
  function Decimal(n: nat): (s: string)
    ensures |s| >= 1
    ensures AllDigits(s)
    ensures s[0] != '0' || n == 0
  {
    if n < 10 then [DigitChar(n)] else Decimal(n / 10) + [DigitChar(n % 10)]
  }

  /** The number a string of decimal digits denotes. */
  function Value(s: string): (v: nat)
    requires AllDigits(s)
    ensures v < Pow10(|s|)
  {
    if s == [] then 0 else Value(s[..|s| - 1]) * 10 + DigitValue(s[|s| - 1])
  }

  /** `s.slice(start)` with the end omitted: a negative start counts from the
      end of the string and is cut off at 0; a start past the end gives "". */
  function JsSlice(s: string, start: int): (r: string)
    ensures |r| <= |s| && r == s[|s| - |r|..]
    ensures start < 0 ==> |r| == if |s| < -start then |s| else -start
    ensures start >= 0 ==> |r| == if start < |s| then |s| - start else 0
  {
    var from := if start < 0 then (if |s| + start < 0 then 0 else |s| + start)
                else (if start < |s| then start else |s|);
    s[from..]
  }

  /** The ticket number built from the second clock read of a submission. */
  function TicketNumber(now: nat): (t: string)
    ensures |t| == |Prefix| + (if |Decimal(now)| < Width then |Decimal(now)| else Width)
    ensures t[..|Prefix|] == Prefix
    ensures AllDigits(t[|Prefix|..])
    ensures t[|Prefix|..] == Decimal(now)[|Decimal(now)| - (|t| - |Prefix|)..]
  {
    var digits := JsSlice(Decimal(now), -(Width as int));
    assert (Prefix + digits)[|Prefix|..] == digits;
    Prefix + digits
  }

  /** Formatting then reading back gives the number. */
  lemma {:induction false} DecimalRoundTrip(n: nat)
    ensures Value(Decimal(n)) == n
  {
    if n >= 10 {
      DecimalRoundTrip(n / 10);
      var s := Decimal(n);
      assert s[..|s| - 1] == Decimal(n / 10);
    }
  }

  /** Decimal formatting is injective. */
  lemma DecimalInjective(a: nat, b: nat)
    requires Decimal(a) == Decimal(b)
    ensures a == b
  {
    DecimalRoundTrip(a);
    DecimalRoundTrip(b);
  }

  /** The decimal form is longer than k digits exactly when n >= 10^k
      (k >= 1; zero is written "0"). */
  lemma {:induction false} DecimalLength(n: nat, k: nat)
    requires k >= 1
    ensures |Decimal(n)| > k <==> n >= Pow10(k)
  {
    if n >= 10 {
      if k > 1 {
        DecimalLength(n / 10, k - 1);
        assert n / 10 >= Pow10(k - 1) <==> n >= 10 * Pow10(k - 1);
      }
    } else {
      assert Pow10(k) >= 10 by {
        assert Pow10(k) == 10 * Pow10(k - 1);
      }
    }
  }

  lemma MulAtLeast(k: int, m: nat)
    requires k >= 1
    ensures k * m >= m
  {
  }

  /** Euclidean division is determined by quotient and remainder. */
  lemma ModUnique(x: nat, m: nat, q: nat, r: nat)
    requires m >= 1 && r < m && x == q * m + r
    ensures x % m == r
  {
    var q0, r0 := x / m, x % m;
    assert x == q0 * m + r0;
    assert (q - q0) * m == r0 - r by {
      assert (q - q0) * m == q * m - q0 * m;
    }
    if q0 < q {
      MulAtLeast(q - q0, m);
    } else if q0 > q {
      MulAtLeast(q0 - q, m);
    }
  }

  lemma ModStep(a: nat, d: nat, p: nat)
    requires p >= 1 && d < 10
    ensures (a * 10 + d) % (p * 10) == (a % p) * 10 + d
  {
    var q, r := a / p, a % p;
    assert a == q * p + r;
    assert a * 10 + d == q * (p * 10) + (r * 10 + d);
    ModUnique(a * 10 + d, p * 10, q, r * 10 + d);
  }

  /** The last k digits of a digit string denote its value modulo 10^k. */
  lemma {:induction false} SuffixValue(s: string, k: nat)
    requires AllDigits(s) && k <= |s|
    ensures Value(s[|s| - k..]) == Value(s) % Pow10(k)
  {
    if k > 0 {
      var p := s[..|s| - 1];
      SuffixValue(p, k - 1);
      var t := s[|s| - k..];
      assert t[..|t| - 1] == p[|p| - (k - 1)..];
      assert t[|t| - 1] == s[|s| - 1];
      ModStep(Value(p), DigitValue(s[|s| - 1]), Pow10(k - 1));
    } else {
      assert s[|s|..] == [];
    }
  }

  /** The ticket is "TKT-" and 8 digits exactly when the timestamp has at
      least 8 digits, that is, when it is at least 10^7. */
  lemma TicketLength(now: nat)
    ensures |TicketNumber(now)| == 12 <==> now >= 10000000
  {
    DecimalLength(now, 7);
    assert Pow10(7) == 10000000;
  }

  /** The digits of the ticket denote the timestamp modulo 10^8. */
  lemma TicketDigitsValue(now: nat)
    ensures Value(TicketNumber(now)[|Prefix|..]) == now % 100000000
  {
    var s := Decimal(now);
    DecimalRoundTrip(now);
    assert Pow10(Width) == 100000000;
    if |s| >= Width {
      SuffixValue(s, Width);
    } else {
      assert TicketNumber(now)[|Prefix|..] == s;
      PowMonotone(|s|, Width);
      SmallMod(now, Pow10(Width));
    }
  }

  lemma SmallMod(x: nat, m: nat)
    requires x < m
    ensures x % m == x
  {
  }

  lemma {:induction false} PowMonotone(i: nat, j: nat)
    requires i <= j
    ensures Pow10(i) <= Pow10(j)
  {
    if i < j {
      PowMonotone(i, j - 1);
    }
  }

  /** For timestamps of at least 8 digits, two tickets are equal exactly
      when the timestamps agree modulo 10^8. */
  lemma TicketCollision(a: nat, b: nat)
    requires a >= 10000000 && b >= 10000000
    ensures TicketNumber(a) == TicketNumber(b) <==> a % 100000000 == b % 100000000
  {
    TicketDigitsValue(a);
    TicketDigitsValue(b);
    TicketLength(a);
    TicketLength(b);
    if a % 100000000 == b % 100000000 {
      var ta, tb := TicketNumber(a)[4..], TicketNumber(b)[4..];
      EightDigitsDetermined(ta, tb);
      assert TicketNumber(a) == Prefix + ta;
      assert TicketNumber(b) == Prefix + tb;
    }
  }

  lemma {:induction false} EightDigitsDetermined(x: string, y: string)
    requires AllDigits(x) && AllDigits(y) && |x| == |y|
    requires Value(x) == Value(y)
    ensures x == y
  {
    if x != [] {
      var px, py := x[..|x| - 1], y[..|y| - 1];
      assert Value(px) == Value(py) && DigitValue(x[|x| - 1]) == DigitValue(y[|y| - 1]);
      EightDigitsDetermined(px, py);
      assert x == px + [x[|x| - 1]];
      assert y == py + [y[|y| - 1]];
    }
  }
}
