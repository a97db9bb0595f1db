/**
 Bytes, bit strings and the machine operations both halves of the JPEG codec are written in.

 A bit string is a `seq<bool>`, most significant bit first.  Registers are unbounded naturals; the places
 where the program relies on a register's width reduce explicitly modulo a power of two.
 */
module Bits {

  type byte = x: int | 0 <= x < 256

  /** A value kept in a signed 16-bit variable. */
  function Int16(v: int): int {
    (v + 32768) % 65536 - 32768
  }

  /** A value kept in a signed 32-bit variable. */
  function Int32(v: int): int {
    (v + 0x8000_0000) % 0x1_0000_0000 - 0x8000_0000
  }

  // ---------- arithmetic ----------

  lemma MulDouble(a: int, p: int)
    ensures a * (2 * p) == 2 * (a * p) == (2 * a) * p
  {
  }

  lemma MulDistribute(a: int, b: int, c: int)
    ensures (a + b) * c == a * c + b * c
  {
  }

  lemma MulAssociate(a: int, b: int, c: int)
    ensures (a * b) * c == a * (b * c)
  {
  }

  lemma SmallMod(x: nat, m: nat)
    requires x < m
    ensures x % m == x
  {
  }

  lemma MulMonotone(a: int, b: int, c: int)
    requires a <= b && c >= 0
    ensures a * c <= b * c
  {
    assert (b - a) * c >= 0;
  }

  lemma MulAtLeast(k: int, d: int)
    requires k >= 1 && d >= 0
    ensures k * d >= d
  {
    MulMonotone(1, k, d);
  }

  lemma MulCancel(a: int, b: int, c: int)
    requires c > 0 && a * c <= b * c
    ensures a <= b
  {
    if a > b {
      MulDistribute(a - b, b, c);
      MulAtLeast(a - b, c);
    }
  }

  lemma MulCancelStrict(a: int, b: int, c: int)
    requires c > 0 && a * c < b * c
    ensures a < b
  {
    if a >= b {
      MulMonotone(b, a, c);
    }
  }

  lemma QuotientUnique(d: int, q: int, r: int, q': int, r': int)
    requires 0 <= r < d && 0 <= r' < d && q * d + r == q' * d + r'
    ensures q == q' && r == r'
  {
    if q > q' {
      MulDistribute(q - q', q', d);
      MulAtLeast(q - q', d);
    } else if q < q' {
      MulDistribute(q' - q, q, d);
      MulAtLeast(q' - q, d);
    }
  }

  lemma DivMod(v: int, d: int) returns (q: int, r: int)
    requires d > 0
    ensures q == v / d && r == v % d && v == q * d + r && 0 <= r < d
    ensures v >= 0 ==> q >= 0
  {
    q, r := v / d, v % d;
  }

  lemma DivModUnique(v: int, d: int, q: int, r: int)
    requires 0 <= r < d && v == q * d + r
    ensures v / d == q && v % d == r
  {
    var q', r' := DivMod(v, d);
    QuotientUnique(d, q, r, q', r');
  }

  // ---------- powers of two ----------

  function Pow2(n: nat): (p: nat)
    ensures p >= 1
  {
    if n == 0 then 1 else 2 * Pow2(n - 1)
  }

  lemma Pow2Zero()
    ensures Pow2(0) == 1
  {
  }

  lemma Pow2Step(n: nat)
    requires n > 0
    ensures Pow2(n) == 2 * Pow2(n - 1)
  {
  }

  lemma {:induction false} Pow2Add(m: nat, n: nat)
    ensures Pow2(m + n) == Pow2(m) * Pow2(n)
  {
    if n != 0 {
      Pow2Add(m, n - 1);
      MulDouble(Pow2(m), Pow2(n - 1));
    }
  }

  lemma {:induction false} Pow2Monotone(m: nat, n: nat)
    requires m <= n
    ensures Pow2(m) <= Pow2(n)
  {
    if m < n {
      Pow2Monotone(m, n - 1);
    }
  }

  lemma Pow2Values()
    ensures Pow2(1) == 2 && Pow2(2) == 4 && Pow2(3) == 8 && Pow2(4) == 16 && Pow2(5) == 32
    ensures Pow2(6) == 64 && Pow2(7) == 128 && Pow2(8) == 256 && Pow2(9) == 512 && Pow2(10) == 1024
    ensures Pow2(11) == 2048 && Pow2(12) == 4096 && Pow2(15) == 32768 && Pow2(16) == 65536
    ensures Pow2(24) == 0x100_0000 && Pow2(32) == 0x1_0000_0000
  {
    assert Pow2(4) == 16;
    assert Pow2(8) == 256;
    assert Pow2(12) == 4096;
    assert Pow2(16) == 65536;
    Pow2Add(16, 8);
    Pow2Add(16, 16);
  }

  // ---------- bit strings ----------

  /** The `n` low bits of `v`. */
  function BitsOf(v: nat, n: nat): (bs: seq<bool>)
    ensures |bs| == n
  {
    if n == 0 then [] else BitsOf(v / 2, n - 1) + [v % 2 == 1]
  }

  function ValueOf(bs: seq<bool>): nat
  {
    if |bs| == 0 then 0 else 2 * ValueOf(bs[..|bs| - 1]) + if bs[|bs| - 1] then 1 else 0
  }

  lemma NoBits()
    ensures BitsOf(0, 0) == []
  {
  }

  lemma {:induction false} ValueOfBound(bs: seq<bool>)
    ensures ValueOf(bs) < Pow2(|bs|)
  {
    if |bs| != 0 {
      ValueOfBound(bs[..|bs| - 1]);
    }
  }

  lemma {:induction false} ValueOfBitsOf(v: nat, n: nat)
    requires v < Pow2(n)
    ensures ValueOf(BitsOf(v, n)) == v
  {
    if n != 0 {
      ValueOfBitsOf(v / 2, n - 1);
      assert BitsOf(v, n)[..n - 1] == BitsOf(v / 2, n - 1);
    }
  }

  lemma {:induction false} BitsOfValueOf(bs: seq<bool>)
    ensures BitsOf(ValueOf(bs), |bs|) == bs
  {
    if |bs| != 0 {
      BitsOfValueOf(bs[..|bs| - 1]);
      assert bs == bs[..|bs| - 1] + [bs[|bs| - 1]];
    }
  }

  lemma Associate<T>(a: seq<T>, b: seq<T>, c: seq<T>)
    ensures a + (b + c) == (a + b) + c
  {
  }

  lemma BitsOfLast(v: nat, n: nat)
    requires n > 0
    ensures BitsOf(v, n) == BitsOf(v / 2, n - 1) + [v % 2 == 1]
  {
  }

  /** Appending the `n` bits of `w` to those of `v`. */
  lemma {:induction false} BitsOfConcat(v: nat, m: nat, w: nat, n: nat)
    requires w < Pow2(n)
    ensures BitsOf(v * Pow2(n) + w, m + n) == BitsOf(v, m) + BitsOf(w, n)
  {
    if n == 0 {
      assert BitsOf(v, m) + [] == BitsOf(v, m);
    } else {
      var h, u := v * Pow2(n - 1), v * Pow2(n) + w;
      assert u == 2 * h + w by {
        MulDouble(v, Pow2(n - 1));
      }
      BitsOfConcat(v, m, w / 2, n - 1);
      BitsOfLast(u, m + n);
      BitsOfLast(w, n);
      Associate(BitsOf(v, m), BitsOf(w / 2, n - 1), [w % 2 == 1]);
    }
  }

  lemma BitsOfMod(v: nat, n: nat)
    ensures BitsOf(v % Pow2(n), n) == BitsOf(v, n)
  {
    hide *;
    var q, r := DivMod(v, Pow2(n));
    BitsOfConcat(q, 0, r, n);
  }

  lemma ConcatValue(x: nat, m: nat, y: nat, n: nat) returns (v: nat)
    requires x < Pow2(m) && y < Pow2(n)
    ensures v == x * Pow2(n) + y && v < Pow2(m + n)
    ensures BitsOf(v, m + n) == BitsOf(x, m) + BitsOf(y, n)
  {
    hide *;
    v := x * Pow2(n) + y;
    BitsOfConcat(x, m, y, n);
    Pow2Add(m, n);
    MulDistribute(x, 1, Pow2(n));
    MulMonotone(x + 1, Pow2(m), Pow2(n));
  }

  lemma ValueOfConcat(a: seq<bool>, b: seq<bool>)
    ensures ValueOf(a + b) == ValueOf(a) * Pow2(|b|) + ValueOf(b)
  {
    hide *;
    ValueOfBound(a);
    ValueOfBound(b);
    var v := ConcatValue(ValueOf(a), |a|, ValueOf(b), |b|);
    BitsOfValueOf(a);
    BitsOfValueOf(b);
    ValueOfBitsOf(v, |a| + |b|);
  }

  /** The value of an extension of `a` lies in the range `a` covers at its length. */
  lemma ValueOfExtension(a: seq<bool>, b: seq<bool>)
    ensures ValueOf(a) * Pow2(|b|) <= ValueOf(a + b) < (ValueOf(a) + 1) * Pow2(|b|)
  {
    hide *;
    ValueOfConcat(a, b);
    ValueOfBound(b);
    MulDistribute(ValueOf(a), 1, Pow2(|b|));
  }

  // ---------- bitwise or ----------

  function BitOr(a: nat, b: nat): nat
  {
    if a == 0 then b else 2 * BitOr(a / 2, b / 2) + if a % 2 == 1 || b % 2 == 1 then 1 else 0
  }

  lemma BitOrEven(h: nat, b: nat)
    ensures BitOr(2 * h, b) == 2 * BitOr(h, b / 2) + b % 2
  {
  }

  /** Or-ing into zero low bits is addition. */
  lemma {:induction false} BitOrDisjoint(a: nat, b: nat, k: nat)
    requires b < Pow2(k)
    ensures BitOr(a * Pow2(k), b) == a * Pow2(k) + b
  {
    if k == 0 {
      BitOrZero(a);
    } else {
      BitOrDisjoint(a, b / 2, k - 1);
      MulDouble(a, Pow2(k - 1));
      BitOrEven(a * Pow2(k - 1), b);
    }
  }

  lemma {:induction false} BitOrZero(a: nat)
    ensures BitOr(a, 0) == a
  {
    if a != 0 {
      BitOrZero(a / 2);
    }
  }

  // ---------- byte strings ----------

  /** Bits of a byte string. */
  function ByteBits(bs: seq<byte>): (r: seq<bool>)
    ensures |r| == 8 * |bs|
  {
    if |bs| == 0 then [] else BitsOf(bs[0], 8) + ByteBits(bs[1..])
  }

  lemma {:induction false} ByteBitsConcat(a: seq<byte>, b: seq<byte>)
    ensures ByteBits(a + b) == ByteBits(a) + ByteBits(b)
  {
    if |a| == 0 {
      assert a + b == b;
    } else {
      ByteBitsConcat(a[1..], b);
      assert (a + b)[1..] == a[1..] + b;
      Associate(BitsOf(a[0], 8), ByteBits(a[1..]), ByteBits(b));
    }
  }

  function Ones(n: nat): (r: seq<bool>)
    ensures |r| == n && forall i :: 0 <= i < n ==> r[i]
  {
    seq(n, _ => true)
  }

  lemma {:induction false} OnesBits(n: nat)
    ensures BitsOf(Pow2(n) - 1, n) == Ones(n)
  {
    if n != 0 {
      OnesBits(n - 1);
    }
  }
}
