/**
 Bit operations on the non-negative int64 values used as ring sizes and cursors,
 and the two power-of-two helpers shared by the byte ring and the ack queue.
 */
module Bits {

  function Pow2(k: nat): (p: nat)
    ensures p >= 1
  {
    if k == 0 then 1 else 2 * Pow2(k - 1)
  }

  /** Bit i of x. */
  predicate Bit(x: nat, i: nat) {
    if i == 0 then x % 2 == 1 else Bit(x / 2, i - 1)
  }

  /** x & y */
  function And(x: nat, y: nat): nat {
    if x == 0 then 0
    else 2 * And(x / 2, y / 2) + (if x % 2 == 1 && y % 2 == 1 then 1 else 0)
  }

  /** x | y */
  function Or(x: nat, y: nat): nat
    decreases x + y
  {
    if x == 0 then y
    else 2 * Or(x / 2, y / 2) + (if x % 2 == 1 || y % 2 == 1 then 1 else 0)
  }

  /** x >> k */
  function Shr(x: nat, k: nat): nat {
    if k == 0 then x else Shr(x / 2, k - 1)
  }

  lemma {:induction false} AndIsBitwise(x: nat, y: nat, i: nat)
    ensures Bit(And(x, y), i) <==> Bit(x, i) && Bit(y, i)
  {
    if x == 0 {
      ZeroHasNoBits(i);
    } else if i > 0 {
      assert And(x, y) / 2 == And(x / 2, y / 2);
      AndIsBitwise(x / 2, y / 2, i - 1);
    }
  }

  lemma {:induction false} ZeroHasNoBits(i: nat)
    ensures !Bit(0, i)
  {
    if i > 0 { ZeroHasNoBits(i - 1); }
  }

  lemma {:induction false} OrIsBitwise(x: nat, y: nat, i: nat)
    ensures Bit(Or(x, y), i) <==> Bit(x, i) || Bit(y, i)
    decreases i
  {
    if x == 0 {
      ZeroHasNoBits(i);
    } else if i > 0 {
      assert Or(x, y) / 2 == Or(x / 2, y / 2);
      OrIsBitwise(x / 2, y / 2, i - 1);
    }
  }

  lemma {:induction false} ShrMovesBits(x: nat, k: nat, i: nat)
    ensures Bit(Shr(x, k), i) <==> Bit(x, i + k)
  {
    if k > 0 { ShrMovesBits(x / 2, k - 1, i); }
  }

  // ------------------------------------------------------------------
  // Setting and clearing flag bits
  // ------------------------------------------------------------------

  /** x |= 1 << k */
  lemma {:induction false} OrBit(x: nat, k: nat)
    ensures Or(x, Pow2(k)) == if Bit(x, k) then x else x + Pow2(k)
  {
    if x == 0 {
      ZeroHasNoBits(k);
    } else if k == 0 {
      OrZero(x / 2);
    } else {
      assert Pow2(k) / 2 == Pow2(k - 1);
      OrBit(x / 2, k - 1);
    }
  }

  lemma {:induction false} OrZero(x: nat)
    ensures Or(x, 0) == x
  {
    if x > 0 { OrZero(x / 2); }
  }

  /** x &= ^(1 << k), for an n-bit x and mask */
  lemma {:induction false} AndNotBit(x: nat, n: nat, k: nat)
    requires k < n && x < Pow2(n)
    ensures Pow2(k) < Pow2(n)
    ensures And(x, Pow2(n) - 1 - Pow2(k)) == if Bit(x, k) then x - Pow2(k) else x
    decreases k
  {
    Pow2Monotone(k, n - 1);
    var p, q := Pow2(n - 1), Pow2(k);
    if x == 0 {
      ZeroHasNoBits(k);
    } else if k == 0 {
      assert (2 * p - 2) / 2 == p - 1;
      MaskIsMod(x / 2, n - 1);
      ModUnique(x / 2, p, 0, x / 2);
    } else {
      var h := Pow2(k - 1);
      assert (2 * p - 1 - 2 * h) / 2 == p - 1 - h;
      AndNotBit(x / 2, n - 1, k - 1);
    }
  }

  // ------------------------------------------------------------------
  // Masking with size - 1 is the remainder by size
  // ------------------------------------------------------------------

  lemma {:induction false} MaskIsMod(x: nat, k: nat)
    ensures And(x, Pow2(k) - 1) == x % Pow2(k)
  {
    if k == 0 {
      AndZero(x);
    } else if x == 0 {
      ModUnique(0, Pow2(k), 0, 0);
    } else {
      var p := Pow2(k - 1);
      calc {
        And(x, Pow2(k) - 1);
        And(x, 2 * (p - 1) + 1);
        { AndWithOdd(x, p - 1); }
        2 * And(x / 2, p - 1) + x % 2;
        { MaskIsMod(x / 2, k - 1); }
        2 * ((x / 2) % p) + x % 2;
        { HalfOfMod(x, p); }
        x % (2 * p);
      }
    }
  }

  lemma AndWithOdd(x: nat, y: nat)
    ensures And(x, 2 * y + 1) == 2 * And(x / 2, y) + x % 2
  {
    assert (2 * y + 1) / 2 == y;
  }

  lemma {:induction false} AndZero(x: nat)
    ensures And(x, 0) == 0
  {
    if x > 0 { AndZero(x / 2); }
  }

  lemma AndWithEven(x: nat, y: nat)
    ensures And(x, 2 * y) == 2 * And(x / 2, y)
  {
  }

  lemma BitOfHalf(x: nat, i: nat)
    ensures Bit(x, i + 1) == Bit(x / 2, i)
  {
  }

  lemma HalfOfMod(x: nat, p: nat)
    requires p >= 1
    ensures x % (2 * p) == 2 * ((x / 2) % p) + x % 2
  {
    var h := x / 2;
    var q, r := h / p, h % p;
    assert h == p * q + r;
    assert x == (2 * p) * q + (2 * r + x % 2);
    ModUnique(x, 2 * p, q, 2 * r + x % 2);
  }

  lemma ModUnique(x: int, m: int, q: int, r: int)
    requires m > 0 && 0 <= r < m && x == m * q + r
    ensures x % m == r && x / m == q
  {
    var q', r' := x / m, x % m;
    if q' > q {
      MulStep(m, q, q');
    } else if q' < q {
      MulStep(m, q', q);
    }
  }

  lemma MulStep(m: int, a: int, b: int)
    requires m > 0 && a < b
    ensures m * a + m <= m * b
  {
    assert m * b - m * (a + 1) == m * (b - (a + 1));
  }

  /** Two numbers less than m apart have different remainders. */
  lemma ModDistinct(a: nat, b: nat, m: nat)
    requires a < b < a + m
    ensures a % m != b % m
  {
    var qa, qb := a / m, b / m;
    if a % m == b % m {
      assert b - a == m * qb - m * qa;
      if qa < qb {
        MulStep(m, qa, qb);
      } else if qb < qa {
        MulStep(m, qb, qa);
      }
    }
  }

  lemma ModAfter(a: nat, i: nat, m: nat)
    requires m > 0 && a % m + i < m
    ensures (a + i) % m == a % m + i
  {
    ModUnique(a + i, m, a / m, a % m + i);
  }

  lemma ModWrap(a: nat, i: nat, m: nat)
    requires i < m <= a % m + i
    ensures (a + i) % m == a % m + i - m
  {
    ModUnique(a + i, m, a / m + 1, a % m + i - m);
  }

  // ------------------------------------------------------------------
  // powerOfTwo64 and roundUpPowerOfTwo64
  // ------------------------------------------------------------------

  predicate PowerOfTwo64(n: nat) {
    n != 0 && And(n, n - 1) == 0
  }

  ghost predicate IsPow2(n: nat) {
    exists k: nat :: n == Pow2(k)
  }

  /** Among positive inputs powerOfTwo64 accepts exactly the powers of two. */
  lemma {:induction false} PowerOfTwoExact(n: nat)
    ensures PowerOfTwo64(n) <==> IsPow2(n)
  {
    if n == 0 {
    } else if n % 2 == 1 {
      assert And(n, n - 1) == 2 * And(n / 2, n / 2);
      AndSelf(n / 2);
      if n == 1 { assert n == Pow2(0); }
    } else {
      var m := n / 2;
      assert And(n, n - 1) == 2 * And(m, m - 1);
      PowerOfTwoExact(m);
      if IsPow2(m) {
        var k: nat :| m == Pow2(k);
        assert n == Pow2(k + 1);
      }
      if IsPow2(n) {
        var k: nat :| n == Pow2(k);
        assert m == Pow2(k - 1);
      }
    }
  }

  lemma {:induction false} AndSelf(x: nat)
    ensures And(x, x) == x
  {
    if x > 0 { AndSelf(x / 2); }
  }

  lemma {:induction false} Pow2Monotone(a: nat, b: nat)
    requires a <= b
    ensures Pow2(a) <= Pow2(b)
    decreases b
  {
    if a < b { Pow2Monotone(a, b - 1); }
  }

  /** The bits of x from `from` upwards to just below `len` are set and none is set at or above `len`. */
  ghost predicate TopBits(x: nat, from: nat, len: nat) {
    forall i: nat :: (from <= i < len ==> Bit(x, i)) && (i >= len ==> !Bit(x, i))
  }

  /** One `n |= n >> w` doubles the run of ones below the leading bit. */
  lemma SmearStep(x: nat, w: nat, len: nat)
    requires TopBits(x, if w < len then len - w else 0, len)
    ensures TopBits(Or(x, Shr(x, w)), if 2 * w < len then len - 2 * w else 0, len)
  {
    var from := if 2 * w < len then len - 2 * w else 0;
    forall i: nat
      ensures (from <= i < len ==> Bit(Or(x, Shr(x, w)), i)) && (i >= len ==> !Bit(Or(x, Shr(x, w)), i))
    {
      OrIsBitwise(x, Shr(x, w), i);
      ShrMovesBits(x, w, i);
      assert Bit(x, i + w) || !Bit(x, i + w);
    }
  }

  lemma {:induction false} AllOnes(x: nat, len: nat)
    requires TopBits(x, 0, len)
    ensures x == Pow2(len) - 1
  {
    if len == 0 {
      NoBitsIsZero(x);
    } else {
      assert Bit(x, 0);
      forall i: nat
        ensures Bit(x / 2, i) == Bit(x, i + 1)
      {
      }
      AllOnes(x / 2, len - 1);
    }
  }

  lemma {:induction false} NoBitsIsZero(x: nat)
    requires forall i: nat :: !Bit(x, i)
    ensures x == 0
  {
    if x > 0 {
      assert !Bit(x, 0);
      forall i: nat
        ensures !Bit(x / 2, i)
      {
        assert !Bit(x, i + 1);
      }
      NoBitsIsZero(x / 2);
    }
  }

  /** Every positive x has a leading bit. */
  lemma {:induction false} LeadingBit(x: nat) returns (len: nat)
    ensures x < Pow2(len) && (len > 0 ==> Pow2(len - 1) <= x)
    ensures TopBits(x, if 1 < len then len - 1 else 0, len)
  {
    if x == 0 {
      len := 0;
      forall i: nat ensures !Bit(x, i) { ZeroHasNoBits(i); }
    } else {
      var l := LeadingBit(x / 2);
      len := l + 1;
      forall i: nat
        ensures (len - 1 <= i < len ==> Bit(x, i)) && (i >= len ==> !Bit(x, i))
      {
        if i > 0 {
          assert Bit(x, i) == Bit(x / 2, i - 1);
        }
      }
    }
  }

  /** The least power of two not below n, for every n an int64 result can hold. */
  method RoundUpPowerOfTwo64(n0: nat) returns (n: nat)
    requires 1 <= n0 <= Pow2(62)
    ensures IsPow2(n) && n0 <= n <= Pow2(62)
    ensures forall k: nat :: n0 <= Pow2(k) ==> n <= Pow2(k)
  {
    hide Or, Shr, Bit, TopBits, Pow2;
    n := n0 - 1;
    ghost var len := LeadingBit(n);
    if len > 62 { Pow2Monotone(62, len - 1); }
    n := Or(n, Shr(n, 1));
    SmearStep(n0 - 1, 1, len);
    ghost var n2 := n;
    n := Or(n, Shr(n, 2));
    SmearStep(n2, 2, len);
    ghost var n4 := n;
    n := Or(n, Shr(n, 4));
    SmearStep(n4, 4, len);
    ghost var n8 := n;
    n := Or(n, Shr(n, 8));
    SmearStep(n8, 8, len);
    ghost var n16 := n;
    n := Or(n, Shr(n, 16));
    SmearStep(n16, 16, len);
    ghost var n32 := n;
    n := Or(n, Shr(n, 32));
    SmearStep(n32, 32, len);
    AllOnes(n, len);
    n := n + 1;
    forall k: nat | n0 <= Pow2(k)
      ensures n <= Pow2(k)
    {
      if k < len { Pow2Monotone(k, len - 1); } else { Pow2Monotone(len, k); }
    }
    Pow2Monotone(len, 62);
  }
}
