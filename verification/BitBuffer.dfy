/**
 The encoder's 32-bit shift register `m_bit_buffer`: the `n` pending bits sit just below bit 24, and bytes
 already emitted may remain above it.
 */
module BitBuffer {
  import opened Bits

  /** The register `buf` holds the pending bits `held`. */
  ghost predicate Holds(buf: nat, held: seq<bool>) {
    buf < Pow2(32) && |held| <= 24 && exists k: nat :: Placed(buf, k, held)
  }

  ghost predicate Placed(buf: nat, k: nat, held: seq<bool>) {
    |held| <= 24 && buf == k * Pow2(24 - |held|) && BitsOf(k, |held|) == held
  }

  lemma Place(buf: nat, k: nat, held: seq<bool>)
    requires buf < Pow2(32) && Placed(buf, k, held)
    ensures Holds(buf, held)
  {
  }

  lemma PlaceShape(buf: nat, k: nat, held: seq<bool>)
    ensures Placed(buf, k, held) <==> |held| <= 24 && buf == k * Pow2(24 - |held|) && BitsOf(k, |held|) == held
  {
  }

  lemma HoldsNothing()
    ensures Holds(0, [])
  {
    assert Placed(0, 0, []);
  }

  lemma Unplace(buf: nat, held: seq<bool>) returns (k: nat)
    requires Holds(buf, held)
    ensures buf < Pow2(32) && |held| <= 24 && buf == k * Pow2(24 - |held|) && BitsOf(k, |held|) == held
  {
    k :| Placed(buf, k, held);
  }

  /** A product below a power of two. */
  lemma ShiftBound(x: nat, m: nat, s: nat)
    requires x < Pow2(m)
    ensures x * Pow2(s) + Pow2(s) <= Pow2(m + s)
  {
    hide *;
    Pow2Add(m, s);
    MulDistribute(x, 1, Pow2(s));
    MulMonotone(x + 1, Pow2(m), Pow2(s));
  }

  /** Adding below the last used position leaves the register within 32 bits. */
  lemma RegisterBound(k: nat, p: nat, q: nat, b: nat)
    requires p > 0 && k * p < q * p && b < p
    ensures k * p + b < q * p
  {
    MulCancelStrict(k, q, p);
    MulDistribute(k, 1, p);
    MulMonotone(k + 1, q, p);
  }

  /** `m_bit_buffer |= ((uint32)bits << (24 - (m_bits_in += len)))` appends `len` bits. */
  lemma OrIn(buf: nat, held: seq<bool>, bits: nat, len: nat)
    requires Holds(buf, held) && |held| + len <= 24 && bits < Pow2(len)
    ensures Holds(BitOr(buf, (bits * Pow2(24 - (|held| + len))) % Pow2(32)), held + BitsOf(bits, len))
  {
    hide *;
    var k := Unplace(buf, held);
    var n, s := |held|, 24 - (|held| + len);
    var b := bits * Pow2(s);
    ShiftBound(bits, len, s);
    Pow2Monotone(24 - n, 32);
    SmallMod(b, Pow2(32));
    BitOrDisjoint(k, b, 24 - n);
    Pow2Add(8 + n, 24 - n);
    RegisterBound(k, Pow2(24 - n), Pow2(8 + n), b);
    BitsOfConcat(k, n, bits, len);
    ShiftIn(k, bits, len, s);
    PlaceShape(buf + b, k * Pow2(len) + bits, held + BitsOf(bits, len));
    Place(buf + b, k * Pow2(len) + bits, held + BitsOf(bits, len));
  }

  lemma ShiftIn(k: nat, bits: nat, len: nat, s: nat)
    ensures (k * Pow2(len) + bits) * Pow2(s) == k * Pow2(len + s) + bits * Pow2(s)
  {
    hide *;
    Pow2Add(len, s);
    MulDistribute(k * Pow2(len), bits, Pow2(s));
    MulAssociate(k, Pow2(len), Pow2(s));
  }

  /** The byte at bits 16..23 is the first eight pending bits; shifting left by 8 drops exactly them. */
  lemma ByteOut(buf: nat, held: seq<bool>)
    requires Holds(buf, held) && |held| >= 8
    ensures (buf / 65536) % 256 == ValueOf(held[..8])
    ensures Holds((buf * 256) % Pow2(32), held[8..])
  {
    Pow2Values();
    hide *;
    var k := Unplace(buf, held);
    var e := |held| - 8;
    var q, r := DivMod(k, Pow2(e));
    var a, c := DivMod(q, 256);
    SplitRegister(buf, k, e, q, r);
    BitsOfConcat(q, 8, r, e);
    BitsOfMod(q, 8);
    ValueOfBitsOf(c, 8);
    assert held[..8] == BitsOf(c, 8);
    assert held[8..] == BitsOf(r, e);
    ShiftRegister(buf, k, e, r, a, c);
    BitsOfConcat(c, 0, r, e);
    PlaceShape((c * Pow2(e) + r) * Pow2(24 - e), c * Pow2(e) + r, held[8..]);
    Place((buf * 256) % Pow2(32), c * Pow2(e) + r, held[8..]);
  }

  lemma SplitRegister(buf: nat, k: nat, e: nat, q: nat, r: nat)
    requires e <= 16 && buf == k * Pow2(16 - e) && k == q * Pow2(e) + r && r < Pow2(e)
    ensures buf / 65536 == q
  {
    hide *;
    Pow2Values();
    ShiftIn(q, r, e, 16 - e);
    ShiftBound(r, e, 16 - e);
    DivModUnique(buf, 65536, q, r * Pow2(16 - e));
  }

  lemma ShiftRegister(buf: nat, k: nat, e: nat, r: nat, a: nat, c: nat)
    requires e <= 16 && buf == k * Pow2(16 - e) && k == (a * 256 + c) * Pow2(e) + r && r < Pow2(e) && c < 256
    ensures (buf * 256) % Pow2(32) == (c * Pow2(e) + r) * Pow2(24 - e)
  {
    hide *;
    SplitTop(k, e, r, a, c);
    ShiftByte(buf, k, e);
    Pow2Values();
    ShiftBound(c, 8, e);
    DropTop(buf * 256, k, e, a, c * Pow2(e) + r);
  }

  lemma DropTop(x: nat, k: nat, e: nat, a: nat, low: nat)
    requires e <= 16 && x == k * Pow2(24 - e) && k == a * Pow2(8 + e) + low && low < Pow2(8 + e)
    ensures x % Pow2(32) == low * Pow2(24 - e)
  {
    hide *;
    ShiftBound(low, 8 + e, 24 - e);
    ShiftIn(a, low, 8 + e, 24 - e);
    DivModUnique(x, Pow2(32), a, low * Pow2(24 - e));
  }

  lemma SplitTop(k: nat, e: nat, r: nat, a: nat, c: nat)
    requires k == (a * 256 + c) * Pow2(e) + r
    ensures k == a * Pow2(8 + e) + (c * Pow2(e) + r)
  {
    hide *;
    Pow2Values();
    ShiftIn(a, c, 8, e);
  }

  lemma ShiftByte(buf: nat, k: nat, e: nat)
    requires e <= 16 && buf == k * Pow2(16 - e)
    ensures buf * 256 == k * Pow2(24 - e)
  {
    hide *;
    Pow2Values();
    Pow2Add(16 - e, 8);
    MulAssociate(k, Pow2(16 - e), 256);
  }
}
