/**
 Decoding one symbol: the reference search, its meaning in terms of code words, and the tables the decoder
 builds from a DHT segment (`create_huffman_tbl`), including the 10-bit lookup table of `JD_FASTDECODE` 2.
 */
module HuffmanSearch {
  import opened Bits
  import opened Huffman

  datatype Hit = Miss | Hit(sym: byte, len: nat)

  /** The shortest code word of length at least `l` that `bits` starts with. */
  function Search(t: Table, bits: seq<bool>, l: nat): Hit
    requires |t.counts| == 16 && |t.vals| == Total(t.counts, 16) && 1 <= l <= 17
    decreases 17 - l
  {
    if l > 16 || l > |bits| then
      Miss
    else
      var d := ValueOf(bits[..l]) - FirstCode(t.counts, l);
      if 0 <= d < t.counts[l - 1] then
        TotalMonotone(t.counts, l, 16);
        Hit(t.vals[Total(t.counts, l - 1) + d], l)
      else
        Search(t, bits, l + 1)
  }

  function HuffDecode(t: Table, bits: seq<bool>): Hit
    requires |t.counts| == 16 && |t.vals| == Total(t.counts, 16)
  {
    Search(t, bits, 1)
  }

  lemma Decodes(t: Table, bits: seq<bool>)
    requires |t.counts| == 16 && |t.vals| == Total(t.counts, 16)
    ensures HuffDecode(t, bits) == Search(t, bits, 1)
  {
  }

  /** A bit string that starts with a code word decodes to that word's symbol and length. */
  lemma DecodeWord(t: Table, k: nat, bits: seq<bool>)
    requires t.Valid() && k < |t.vals| && Canonical(t.counts)[k].Word() <= bits
    ensures HuffDecode(t, bits) == Hit(t.vals[k], Canonical(t.counts)[k].len)
  {
    var l, j := CodesFind(t.counts, 16, k);
    CanonicalFits(t.counts, k);
    DecodeWordFrom(t, l, j, bits, 1);
  }

  lemma {:induction false} DecodeWordFrom(t: Table, l: nat, j: nat, bits: seq<bool>, m: nat)
    requires t.Valid() && 1 <= m <= l <= 16 && j < t.counts[l - 1]
    requires FirstCode(t.counts, l) + j < Pow2(l)
    requires BitsOf(FirstCode(t.counts, l) + j, l) <= bits
    ensures Total(t.counts, l - 1) + j < |t.vals|
    ensures Search(t, bits, m) == Hit(t.vals[Total(t.counts, l - 1) + j], l)
    decreases l - m
  {
    var c := FirstCode(t.counts, l) + j;
    assert bits[..l] == BitsOf(c, l);
    ValueOfBitsOf(c, l);
    TotalMonotone(t.counts, l, 16);
    if m < l {
      PrefixBeyond(t.counts, bits, m, l);
      DecodeWordFrom(t, l, j, bits, m + 1);
    }
  }

  /** The value of a prefix of a code word lies beyond the codes of that shorter length. */
  lemma PrefixBeyond(counts: seq<byte>, bits: seq<bool>, m: nat, l: nat)
    requires 1 <= m < l <= |counts| && l <= |bits| && FirstCode(counts, l) <= ValueOf(bits[..l])
    ensures FirstCode(counts, m) + counts[m - 1] <= ValueOf(bits[..m])
  {
    hide *;
    assert bits[..l] == bits[..m] + bits[m..l];
    ValueOfExtension(bits[..m], bits[m..l]);
    FirstCodeBeyond(counts, m, l);
    MulCancelStrict(FirstCode(counts, m) + counts[m - 1], ValueOf(bits[..m]) + 1, Pow2(l - m));
  }

  /** What a hit means: the bits start with a code word of that symbol and length. */
  lemma HitIsWord(t: Table, bits: seq<bool>, l: nat) returns (k: nat)
    requires t.Valid() && 1 <= l <= 17 && Search(t, bits, l).Hit?
    ensures k < |t.vals| && Search(t, bits, l) == Hit(t.vals[k], Canonical(t.counts)[k].len)
    ensures Canonical(t.counts)[k].Word() <= bits
    decreases 17 - l
  {
    var v := ValueOf(bits[..l]);
    var d := v - FirstCode(t.counts, l);
    if 0 <= d < t.counts[l - 1] {
      k := Total(t.counts, l - 1) + d;
      CodesAt(t.counts, 16, l, d);
      BitsOfValueOf(bits[..l]);
      WordAt(t.counts, k, v, l);
    } else {
      k := HitIsWord(t, bits, l + 1);
    }
  }

  lemma WordAt(counts: seq<byte>, k: nat, v: nat, l: nat)
    requires |counts| == 16 && k < Total(counts, 16) && Canonical(counts)[k] == Code(v, l)
    ensures Canonical(counts)[k].Word() == BitsOf(v, l)
  {
  }

  /** Decoding succeeds exactly on the bit strings that start with a code word. */
  lemma DecodesIffWord(t: Table, bits: seq<bool>)
    requires t.Valid()
    ensures HuffDecode(t, bits).Hit? <==> exists k :: 0 <= k < |t.vals| && Canonical(t.counts)[k].Word() <= bits
  {
    if HuffDecode(t, bits).Hit? {
      var k := HitIsWord(t, bits, 1);
    }
    if k :| 0 <= k < |t.vals| && Canonical(t.counts)[k].Word() <= bits {
      DecodeWord(t, k, bits);
    }
  }

  /** A hit depends only on the bits it uses. */
  lemma {:induction false} SearchExtend(t: Table, bits: seq<bool>, more: seq<bool>, l: nat)
    requires |t.counts| == 16 && |t.vals| == Total(t.counts, 16) && 1 <= l <= 17
    ensures Search(t, bits, l).Hit? ==> Search(t, bits, l).len <= |bits| && Search(t, bits + more, l) == Search(t, bits, l)
    ensures Search(t, bits, l).Miss? && l <= |bits| + 1 <= 17 ==> Search(t, bits + more, l) == Search(t, bits + more, |bits| + 1)
    ensures Search(t, bits, l).Miss? && |bits| >= 16 ==> Search(t, bits + more, l).Miss?
    decreases 17 - l
  {
    if l <= 16 && l <= |bits| {
      assert (bits + more)[..l] == bits[..l];
      SearchExtend(t, bits, more, l + 1);
    }
  }

  // ---------- the decoder's code words ----------

  /** The code word loops of `create_huffman_tbl`; `hc` is a 16-bit counter. */
  method RebuildCodes(pb: seq<byte>) returns (ph: array<nat>)
    requires |pb| == 16
    ensures fresh(ph) && ph.Length == Total(pb, 16) && RebuiltTo(ph[..], pb, ph.Length)
  {
    ph := new nat[Total(pb, 16)];
    var hc, j := 0, 0;
    for i := 0 to 16
      invariant j == Total(pb, i) <= Total(pb, 16)
      invariant hc == FirstCode(pb, i + 1) % 65536
      invariant RebuiltTo(ph[..], pb, j)
    {
      TotalMonotone(pb, i + 1, 16);
      ghost var x := FirstCode(pb, i + 1);
      j, hc := RebuildLength(ph, pb, i, j, hc);
      DoubleMod(hc, x + pb[i]);
      hc := (hc * 2) % 65536;
    }
  }

  ghost predicate RebuiltTo(ph: seq<nat>, pb: seq<byte>, n: nat)
    requires |pb| == 16 && n <= |ph| == Total(pb, 16)
  {
    forall k :: 0 <= k < n ==> ph[k] == Canonical(pb)[k].value % 65536
  }

  lemma DoubleMod(x: nat, y: nat)
    requires x == y % 65536
    ensures (x * 2) % 65536 == (2 * y) % 65536
  {
  }

  lemma SuccMod(x: nat, y: nat)
    requires x == y % 65536
    ensures (x + 1) % 65536 == (y + 1) % 65536
  {
  }

  /** The inner loop: consecutive codes of one length. */
  method RebuildLength(ph: array<nat>, pb: seq<byte>, i: nat, j0: nat, hc0: nat) returns (j: nat, hc: nat)
    requires i < 16 == |pb| && ph.Length == Total(pb, 16)
    requires j0 == Total(pb, i) && j0 + pb[i] <= ph.Length && RebuiltTo(ph[..], pb, j0)
    requires hc0 == FirstCode(pb, i + 1) % 65536
    modifies ph
    ensures j == Total(pb, i + 1) && hc == (FirstCode(pb, i + 1) + pb[i]) % 65536
    ensures RebuiltTo(ph[..], pb, j)
  {
    j, hc := j0, hc0;
    var b := pb[i];
    while b > 0
      invariant 0 <= b <= pb[i] && j == j0 + (pb[i] - b)
      invariant hc == (FirstCode(pb, i + 1) + (pb[i] - b)) % 65536
      invariant RebuiltTo(ph[..], pb, j)
    {
      CodesAt(pb, 16, i + 1, pb[i] - b);
      SuccMod(hc, FirstCode(pb, i + 1) + (pb[i] - b));
      ph[j], hc := hc, (hc + 1) % 65536;
      j := j + 1;
      b := b - 1;
    }
  }

  /** On a table that satisfies Kraft the 16-bit counter loses nothing: encoder and decoder build one code. */
  lemma CodesAgree(counts: seq<byte>, k: nat)
    requires Kraft(counts) && k < Total(counts, 16)
    ensures Canonical(counts)[k].value % 65536 == Canonical(counts)[k].value
  {
    CanonicalFits(counts, k);
    Pow2Monotone(Canonical(counts)[k].len, 16);
    Pow2Values();
  }

  // ---------- the lookup table of JD_FASTDECODE 2 ----------

  const HUFF_BIT: nat := 10
  const HUFF_LEN: nat := 1024

  /** What a lookup table slot holds: length and symbol packed together, or the all-ones sentinel. */
  function LutEntry(ac: bool, h: Hit): nat
  {
    match h
    case Miss => if ac then 0xFFFF else 0xFF
    case Hit(sym, len) => if ac then sym + len * 256 else sym + len * 16
  }

  /** DC symbols are at most 11 (`create_huffman_tbl` checks it). */
  predicate SymbolsFit(ac: bool, vals: seq<byte>) {
    !ac ==> forall k :: 0 <= k < |vals| ==> vals[k] <= 11
  }

  /** No packed entry equals the sentinel, and unpacking gives the hit back. */
  lemma LutEntryUnpacks(ac: bool, sym: byte, len: nat)
    requires 1 <= len <= 10 && (!ac ==> sym <= 11)
    ensures var e := LutEntry(ac, Hit(sym, len));
            if ac then e < 65536 && e != 0xFFFF && e / 256 == len && e % 256 == sym
            else e < 256 && e != 0xFF && e / 16 == len && e % 16 == sym
  {
  }

  /** A window whose top `l` bits hold the `j`-th code of length `l` decodes to it. */
  lemma WindowHit(t: Table, l: nat, j: nat, w: nat, x: nat)
    requires t.Valid() && 1 <= l <= 10 && j < t.counts[l - 1] && x < Pow2(10 - l)
    requires w == (FirstCode(t.counts, l) + j) * Pow2(10 - l) + x
    ensures Total(t.counts, l - 1) + j < |t.vals|
    ensures HuffDecode(t, BitsOf(w, 10)) == Hit(t.vals[Total(t.counts, l - 1) + j], l)
  {
    TotalMonotone(t.counts, l, 16);
    hide *;
    BitsOfConcat(FirstCode(t.counts, l) + j, l, x, 10 - l);
    CodesFit(t.counts, l);
    DecodeWordFrom(t, l, j, BitsOf(w, 10), 1);
    Decodes(t, BitsOf(w, 10));
  }

  /** A window beyond the codes of every length up to 10 holds none of them. */
  lemma {:induction false} WindowMiss(t: Table, w: nat, l: nat)
    requires t.Valid() && 1 <= l <= 11 && w < 1024
    requires forall m :: 1 <= m <= 10 ==> (FirstCode(t.counts, m) + t.counts[m - 1]) * Pow2(10 - m) <= w
    ensures Search(t, BitsOf(w, 10), l) == Miss
    decreases 11 - l
  {
    if l <= 10 {
      WindowPrefix(w, l, FirstCode(t.counts, l) + t.counts[l - 1]);
      WindowMiss(t, w, l + 1);
    }
  }

  /** The top `l` bits of a window at or beyond `x` at length `l` are at least `x`. */
  lemma WindowPrefix(w: nat, l: nat, x: nat)
    requires 1 <= l <= 10 && w < 1024 && x * Pow2(10 - l) <= w
    ensures x <= ValueOf(BitsOf(w, 10)[..l])
  {
    Pow2Values();
    hide *;
    var bits := BitsOf(w, 10);
    ValueOfBitsOf(w, 10);
    assert bits == bits[..l] + bits[l..];
    ValueOfExtension(bits[..l], bits[l..]);
    MulCancelStrict(x, ValueOf(bits[..l]) + 1, Pow2(10 - l));
  }

  /** How far the slots are filled before the codes of length `l`: the fill is contiguous. */
  ghost function Filled(t: Table, l: nat, j: nat): nat
    requires |t.counts| == 16 && 1 <= l <= 10
  {
    (FirstCode(t.counts, l) + j) * Pow2(10 - l)
  }

  lemma FilledFits(t: Table, l: nat, j: nat)
    requires t.Valid() && 1 <= l <= 10 && j <= t.counts[l - 1]
    ensures Filled(t, l, j) <= 1024
    ensures j < t.counts[l - 1] ==> Filled(t, l, j) + Pow2(10 - l) == Filled(t, l, j + 1) <= 1024
  {
    CodesFit(t.counts, l);
    Pow2Add(l, 10 - l);
    Pow2Values();
    MulMonotone(FirstCode(t.counts, l) + j, Pow2(l), Pow2(10 - l));
    if j < t.counts[l - 1] {
      MulMonotone(FirstCode(t.counts, l) + j + 1, Pow2(l), Pow2(10 - l));
      assert (FirstCode(t.counts, l) + j + 1) * Pow2(10 - l) == (FirstCode(t.counts, l) + j) * Pow2(10 - l) + Pow2(10 - l);
    }
  }

  lemma FilledNext(t: Table, l: nat)
    requires |t.counts| == 16 && 1 <= l < 10
    ensures Filled(t, l, t.counts[l - 1]) == Filled(t, l + 1, 0)
  {
    assert Pow2(10 - l) == 2 * Pow2(10 - (l + 1));
    var x, p := FirstCode(t.counts, l) + t.counts[l - 1], Pow2(10 - (l + 1));
    assert x * (2 * p) == (2 * x) * p;
  }

  lemma {:induction false} FilledMonotone(t: Table, l: nat)
    requires |t.counts| == 16 && 1 <= l <= 10
    ensures Filled(t, l, t.counts[l - 1]) <= Filled(t, 10, t.counts[9])
    decreases 10 - l
  {
    if l < 10 {
      FilledNext(t, l);
      MulMonotone(FirstCode(t.counts, l + 1), FirstCode(t.counts, l + 1) + t.counts[l], Pow2(10 - (l + 1)));
      FilledMonotone(t, l + 1);
    }
  }

  /**
   Building the lookup table (the `JD_FASTDECODE == 2` block of `create_huffman_tbl`).  All writes stay in the
   table; when the counts satisfy Kraft, every slot holds the result of the reference search on that slot's
   10-bit pattern.  The returned offset is that of the first code longer than 10 bits.
   */
  method CreateLut(tbl: array<nat>, ac: bool, t: Table, ph: array<nat>) returns (longofs: nat)
    requires |t.counts| == 16 && |t.vals| == Total(t.counts, 16) && SymbolsFit(ac, t.vals)
    requires tbl.Length == HUFF_LEN && tbl != ph && ph.Length == |t.vals| && RebuiltTo(ph[..], t.counts, ph.Length)
    modifies tbl
    ensures Kraft(t.counts) ==> forall w :: 0 <= w < HUFF_LEN ==> tbl[w] == LutEntry(ac, HuffDecode(t, BitsOf(w, 10)))
    ensures longofs == Total(t.counts, 10)
  {
    var fill := if ac then 0xFFFF else 0xFF;
    for w := 0 to HUFF_LEN
      invariant forall v :: 0 <= v < w ==> tbl[v] == fill
    {
      tbl[w] := fill;
    }
    var i := 0;
    FilledStart(t);
    for b := 0 to HUFF_BIT
      invariant i == Total(t.counts, b)
      invariant Kraft(t.counts) ==> FilledTo(t, b) <= HUFF_LEN && LutSoFar(tbl[..], ac, t, FilledTo(t, b))
    {
      i := FillLength(tbl, ac, t, ph, b, i);
    }
    if Kraft(t.counts) {
      LutComplete(tbl[..], ac, t);
    }
    longofs := i;
  }

  /** How many slots the codes of length at most `b` take. */
  ghost function FilledTo(t: Table, b: nat): nat
    requires |t.counts| == 16 && b <= 10
  {
    if b == 0 then 0 else Filled(t, b, t.counts[b - 1])
  }

  lemma FilledStart(t: Table)
    requires |t.counts| == 16
    ensures forall b :: 0 <= b < 10 ==> Filled(t, b + 1, 0) == FilledTo(t, b)
  {
    forall b | 0 <= b < 10 ensures Filled(t, b + 1, 0) == FilledTo(t, b) {
      if b > 0 {
        FilledNext(t, b);
      }
    }
  }

  /** Once the codes of length 10 are in, the sentinel is right for every other slot. */
  lemma LutComplete(tbl: seq<nat>, ac: bool, t: Table)
    requires t.Valid() && |tbl| == HUFF_LEN && FilledTo(t, 10) <= HUFF_LEN && LutSoFar(tbl, ac, t, FilledTo(t, 10))
    ensures forall w :: 0 <= w < HUFF_LEN ==> tbl[w] == LutEntry(ac, HuffDecode(t, BitsOf(w, 10)))
  {
    forall w | FilledTo(t, 10) <= w < HUFF_LEN ensures HuffDecode(t, BitsOf(w, 10)) == Miss {
      forall m | 1 <= m <= 10 ensures (FirstCode(t.counts, m) + t.counts[m - 1]) * Pow2(10 - m) <= w {
        FilledMonotone(t, m);
      }
      WindowMiss(t, w, 1);
    }
  }

  /** The codes of one length. */
  method FillLength(tbl: array<nat>, ac: bool, t: Table, ph: array<nat>, b: nat, i0: nat) returns (i: nat)
    requires |t.counts| == 16 && |t.vals| == Total(t.counts, 16) && SymbolsFit(ac, t.vals) && b < 10
    requires tbl.Length == HUFF_LEN && tbl != ph && ph.Length == |t.vals| && RebuiltTo(ph[..], t.counts, ph.Length)
    requires i0 == Total(t.counts, b) && FilledTo(t, b) == Filled(t, b + 1, 0)
    requires Kraft(t.counts) ==> FilledTo(t, b) <= HUFF_LEN && LutSoFar(tbl[..], ac, t, FilledTo(t, b))
    modifies tbl
    ensures i == Total(t.counts, b + 1)
    ensures Kraft(t.counts) ==> FilledTo(t, b + 1) <= HUFF_LEN && LutSoFar(tbl[..], ac, t, FilledTo(t, b + 1))
  {
    hide Kraft, LutSoFar, FirstCode;
    i := i0;
    for j := 0 to t.counts[b]
      invariant i == Total(t.counts, b) + j
      invariant Kraft(t.counts) ==> Filled(t, b + 1, j) <= HUFF_LEN && LutSoFar(tbl[..], ac, t, Filled(t, b + 1, j))
    {
      CodesAt(t.counts, 16, b + 1, j);
      TotalMonotone(t.counts, b + 1, 16);
      if Kraft(t.counts) {
        FilledFits(t, b + 1, j);
        CodesAgree(t.counts, i);
      }
      FillCode(tbl, ac, t, ph[i], t.vals[i], b, j, Filled(t, b + 1, j));
      i := i + 1;
    }
  }

  /** Slots below `n` hold their final entry, the others still the sentinel. */
  ghost predicate LutSoFar(tbl: seq<nat>, ac: bool, t: Table, n: nat)
    requires t.Valid() && |tbl| == HUFF_LEN && n <= HUFF_LEN
  {
    && (forall w :: 0 <= w < n ==> tbl[w] == LutEntry(ac, HuffDecode(t, BitsOf(w, 10))))
    && (forall w :: n <= w < HUFF_LEN ==> tbl[w] == LutEntry(ac, Miss))
  }

  /** Code length and symbol packed into one table entry. */
  function Pack(ac: bool, len: nat, sym: byte): nat
  {
    BitOr(if ac then len * 256 else len * 16, sym)
  }

  lemma PackedEntry(ac: bool, sym: byte, len: nat)
    requires !ac ==> sym <= 11
    ensures Pack(ac, len, sym) == LutEntry(ac, Hit(sym, len))
  {
    Pow2Values();
    BitOrDisjoint(len, sym, if ac then 8 else 4);
  }

  /** Masking the slot index to the table size changes nothing. */
  lemma SlotStart(t: Table, l: nat, j: nat, v: nat)
    requires t.Valid() && 1 <= l <= 10 && j < t.counts[l - 1] && v == FirstCode(t.counts, l) + j
    ensures (v * Pow2(10 - l)) % HUFF_LEN == v * Pow2(10 - l) == Filled(t, l, j)
  {
    FilledFits(t, l, j);
    SmallMod(v * Pow2(10 - l), HUFF_LEN);
  }

  /** All 10-bit patterns from `start` on, `n` of them, have the packed entry `td`. */
  ghost predicate SpanEntries(ac: bool, t: Table, start: nat, n: nat, td: nat)
    requires t.Valid()
  {
    forall w :: start <= w < start + n ==> LutEntry(ac, HuffDecode(t, BitsOf(w, 10))) == td
  }

  lemma CodeSpan(ac: bool, t: Table, l: nat, j: nat, i: nat, start: nat, td: nat)
    requires t.Valid() && 1 <= l <= 10 && j < t.counts[l - 1]
    requires i == Total(t.counts, l - 1) + j < |t.vals| && start == Filled(t, l, j) && td == LutEntry(ac, Hit(t.vals[i], l))
    ensures SpanEntries(ac, t, start, Pow2(10 - l), td)
  {
    forall w | start <= w < start + Pow2(10 - l) ensures HuffDecode(t, BitsOf(w, 10)) == Hit(t.vals[i], l) {
      WindowHit(t, l, j, w, w - start);
    }
  }

  /** One code's slots: all 10-bit patterns that start with it. */
  method FillCode(tbl: array<nat>, ac: bool, t: Table, code: nat, sym: byte, b: nat, ghost j: nat, ghost start: nat)
    requires |t.counts| == 16 && |t.vals| == Total(t.counts, 16) && (!ac ==> sym <= 11)
    requires tbl.Length == HUFF_LEN && b < 10 && j < t.counts[b]
    requires Total(t.counts, b) + j < |t.vals| && sym == t.vals[Total(t.counts, b) + j] && start == Filled(t, b + 1, j)
    requires Kraft(t.counts) ==> && code == FirstCode(t.counts, b + 1) + j
                                 && start + Pow2(9 - b) <= HUFF_LEN && LutSoFar(tbl[..], ac, t, start)
    modifies tbl
    ensures Kraft(t.counts) ==> start + Pow2(9 - b) <= HUFF_LEN && LutSoFar(tbl[..], ac, t, start + Pow2(9 - b))
  {
    hide LutSoFar, FirstCode, LutEntry, Kraft;
    var span := Pow2(9 - b);
    SlotFits(code, b);
    var ti := (code * span) % HUFF_LEN;
    PackedEntry(ac, sym, b + 1);
    var td := Pack(ac, b + 1, sym);
    if Kraft(t.counts) {
      SlotStart(t, b + 1, j, code);
      CodeSpan(ac, t, b + 1, j, Total(t.counts, b) + j, ti, td);
    }
    FillSpan(tbl, ac, t, ti, span, td);
  }

  /** A masked slot index leaves room for the whole span. */
  lemma SlotFits(x: nat, b: nat)
    requires b < 10
    ensures (x * Pow2(9 - b)) % HUFF_LEN + Pow2(9 - b) <= HUFF_LEN
  {
    Pow2Values();
    Pow2Add(b + 1, 9 - b);
    var m, p := Pow2(b + 1), Pow2(9 - b);
    var q, r := DivMod(x, m);
    assert x * p == q * (m * p) + r * p by {
      MulDistribute(q * m, r, p);
      MulAssociate(q, m, p);
    }
    MulMonotone(r + 1, m, p);
    MulDistribute(r, 1, p);
    DivModUnique(x * p, HUFF_LEN, q, r * p);
  }

  method FillSpan(tbl: array<nat>, ac: bool, ghost t: Table, ti0: nat, span0: nat, td: nat)
    requires |t.counts| == 16 && |t.vals| == Total(t.counts, 16) && tbl.Length == HUFF_LEN && ti0 + span0 <= HUFF_LEN
    requires Kraft(t.counts) ==> SpanEntries(ac, t, ti0, span0, td) && LutSoFar(tbl[..], ac, t, ti0)
    modifies tbl
    ensures Kraft(t.counts) ==> LutSoFar(tbl[..], ac, t, ti0 + span0)
  {
    var ti, span := ti0, span0;
    while span > 0
      invariant 0 <= span <= span0 && ti == ti0 + (span0 - span)
      invariant Kraft(t.counts) ==> LutSoFar(tbl[..], ac, t, ti)
    {
      tbl[ti] := td;
      ti := ti + 1;
      span := span - 1;
    }
  }
}
