/**
 The entropy code of baseline JPEG on bit strings: what `code_coefficients_pass_two` writes for a block, what
 `mcu_load` reads for one, and the theorem that reading undoes writing.  Blocks are in zigzag order.
 */
module Entropy {
  import opened Bits
  import opened Huffman
  import opened HuffmanSearch

  type Block = b: seq<int> | |b| == 64 witness Zeros(64)

  function Zeros(n: nat): (z: seq<int>)
    ensures |z| == n && forall i :: 0 <= i < n ==> z[i] == 0
  {
    if n == 0 then [] else Zeros(n - 1) + [0]
  }

  /** DC and AC tables of a component class. */
  datatype Coder = Coder(dc: Table, ac: Table) {
    ghost predicate Valid() {
      dc.Valid() && ac.Valid()
    }

    /** Every symbol the encoder can look up has a code. */
    ghost predicate Complete() {
      && Valid()
      && (forall n :: 0 <= n <= 11 ==> n in dc.vals)
      && 0 in ac.vals && 0xF0 in ac.vals
      && (forall r, n :: 0 <= r < 16 && 1 <= n <= 10 ==> AcSymbol(r, n) in ac.vals)
    }
  }

  function AcSymbol(run: nat, n: nat): nat {
    run * 16 + n
  }

  function Abs(v: int): nat {
    if v < 0 then -v else v
  }

  /** The category of a magnitude: its number of bits. */
  function NBits(v: nat): nat {
    if v == 0 then 0 else 1 + NBits(v / 2)
  }

  // ---------- writing ----------

  function IndexOf(vals: seq<byte>, s: nat): (k: nat)
    requires s in vals
    ensures k < |vals| && vals[k] == s
  {
    if vals[0] == s then 0 else 1 + IndexOf(vals[1..], s)
  }

  /** The bits written for a symbol; a symbol without a code has size 0 in the encoder's table. */
  function SymBits(t: Table, s: nat): seq<bool>
    requires |t.counts| == 16 && |t.vals| == Total(t.counts, 16)
  {
    if s in t.vals then Canonical(t.counts)[IndexOf(t.vals, s)].Word() else []
  }

  /** `temp2 & ((1 << nbits) - 1)`: two's complement, one less when negative. */
  function Extra(v: int, n: nat): nat {
    (if v < 0 then v - 1 else v) % Pow2(n)
  }

  function ValueBits(v: int): seq<bool> {
    BitsOf(Extra(v, NBits(Abs(v))), NBits(Abs(v)))
  }

  function DcBits(t: Table, diff: int): seq<bool>
    requires |t.counts| == 16 && |t.vals| == Total(t.counts, 16)
  {
    SymBits(t, NBits(Abs(diff))) + ValueBits(diff)
  }

  /** `n` ZRL codes. */
  function ZrlBits(t: Table, n: nat): seq<bool>
    requires |t.counts| == 16 && |t.vals| == Total(t.counts, 16)
  {
    if n == 0 then [] else SymBits(t, 0xF0) + ZrlBits(t, n - 1)
  }

  /** One non-zero coefficient after a run of zeros. */
  function CoefBits(t: Table, run: nat, v: int): seq<bool>
    requires |t.counts| == 16 && |t.vals| == Total(t.counts, 16)
  {
    ZrlBits(t, run / 16) + (SymBits(t, AcSymbol(run % 16, NBits(Abs(v)))) + ValueBits(v))
  }

  /** The coefficients from `i` on, `run` zeros before them being still unwritten. */
  function AcBits(t: Table, blk: Block, i: nat, run: nat): seq<bool>
    requires |t.counts| == 16 && |t.vals| == Total(t.counts, 16) && i <= 64
    decreases 64 - i
  {
    if i == 64 then
      if run > 0 then SymBits(t, 0) else []
    else if blk[i] == 0 then
      AcBits(t, blk, i + 1, run + 1)
    else
      CoefBits(t, run, blk[i]) + AcBits(t, blk, i + 1, 0)
  }

  function BlockBits(c: Coder, blk: Block, pred: int): seq<bool>
    requires |c.dc.counts| == 16 && |c.dc.vals| == Total(c.dc.counts, 16)
    requires |c.ac.counts| == 16 && |c.ac.vals| == Total(c.ac.counts, 16)
  {
    DcBits(c.dc, blk[0] - pred) + AcBits(c.ac, blk, 1, 0)
  }

  // ---------- reading ----------

  datatype Read<T> = Bad | Got(value: T, rest: seq<bool>)

  /** Restoring a value from its `n` extra bits (the sign trick; EXTEND of T.81 F.2.2.1). */
  function Extend(e: nat, n: nat): int
    requires n > 0
  {
    if e / Pow2(n - 1) % 2 == 0 then e - (Pow2(n) - 1) else e
  }

  function ReadSymbol(t: Table, bits: seq<bool>): Read<byte>
    requires |t.counts| == 16 && |t.vals| == Total(t.counts, 16)
  {
    match HuffDecode(t, bits)
    case Miss => Bad
    case Hit(s, len) => if len <= |bits| then Got(s, bits[len..]) else Bad
  }

  function ReadValue(n: nat, bits: seq<bool>): Read<int>
  {
    if n > |bits| then Bad
    else if n == 0 then Got(0, bits)
    else Got(Extend(ValueOf(bits[..n]), n), bits[n..])
  }

  function ReadDc(t: Table, bits: seq<bool>, pred: int): Read<int>
    requires |t.counts| == 16 && |t.vals| == Total(t.counts, 16)
  {
    match ReadSymbol(t, bits)
    case Bad => Bad
    case Got(s, rest) =>
      match ReadValue(s, rest)
      case Bad => Bad
      case Got(e, rest') => Got(pred + e, rest')
  }

  /** The AC loop of `mcu_load` from zigzag position `z`. */
  function ReadAc(t: Table, bits: seq<bool>, z: nat, blk: Block): Read<Block>
    requires |t.counts| == 16 && |t.vals| == Total(t.counts, 16)
    decreases 64 - z
  {
    if z >= 64 then Got(blk, bits) else
      match ReadSymbol(t, bits)
      case Bad => Bad
      case Got(s, rest) =>
        if s == 0 then Got(blk, rest)
        else if z + s / 16 >= 64 then Bad
        else if s % 16 == 0 then ReadAc(t, rest, z + s / 16 + 1, blk)
        else
          match ReadValue(s % 16, rest)
          case Bad => Bad
          case Got(v, rest') => ReadAc(t, rest', z + s / 16 + 1, blk[z + s / 16 := v])
  }

  const ZeroBlock: Block := Zeros(64)

  function ReadBlock(c: Coder, bits: seq<bool>, pred: int): Read<Block>
    requires |c.dc.counts| == 16 && |c.dc.vals| == Total(c.dc.counts, 16)
    requires |c.ac.counts| == 16 && |c.ac.vals| == Total(c.ac.counts, 16)
  {
    match ReadDc(c.dc, bits, pred)
    case Bad => Bad
    case Got(d, rest) => ReadAc(c.ac, rest, 1, ZeroBlock[0 := d])
  }

  // ---------- reading undoes writing ----------

  lemma {:induction false} NBitsRange(v: nat)
    ensures v < Pow2(NBits(v))
    ensures v > 0 ==> NBits(v) > 0 && Pow2(NBits(v) - 1) <= v
  {
    if v > 1 {
      NBitsRange(v / 2);
    }
  }

  lemma {:induction false} NBitsBound(v: nat, n: nat)
    requires v < Pow2(n)
    ensures NBits(v) <= n
  {
    if v > 0 {
      NBitsBound(v / 2, n - 1);
    }
  }

  /** The sign trick loses nothing. */
  lemma ExtendExtra(v: int)
    requires v != 0
    ensures var n := NBits(Abs(v)); n > 0 && Extra(v, n) < Pow2(n) && Extend(Extra(v, n), n) == v
  {
    NBitsRange(Abs(v));
    var n := NBits(Abs(v));
    Pow2Step(n);
    SignTrick(v, Pow2(n - 1));
  }

  lemma SignTrick(v: int, h: nat)
    requires h > 0 && (h <= v < 2 * h || h <= -v < 2 * h)
    ensures var e := (if v < 0 then v - 1 else v) % (2 * h); 0 <= e < 2 * h && (if e / h % 2 == 0 then e - (2 * h - 1) else e) == v
  {
    if v < 0 {
      DivModUnique(v - 1, 2 * h, -1, v - 1 + 2 * h);
      DivModUnique(v - 1 + 2 * h, h, 0, v - 1 + 2 * h);
    } else {
      DivModUnique(v, 2 * h, 0, v);
      DivModUnique(v, h, 1, v - h);
    }
  }

  lemma ReadSymBits(t: Table, s: nat, more: seq<bool>)
    requires t.Valid() && s in t.vals
    ensures ReadSymbol(t, SymBits(t, s) + more) == Got(s, more)
  {
    var k := IndexOf(t.vals, s);
    var w := Canonical(t.counts)[k].Word();
    DecodeWord(t, k, w + more);
    assert (w + more)[|w|..] == more;
  }

  lemma ReadValueBits(v: int, more: seq<bool>)
    ensures ReadValue(NBits(Abs(v)), ValueBits(v) + more) == Got(v, more)
  {
    var n, w := NBits(Abs(v)), ValueBits(v);
    assert (w + more)[n..] == more && (w + more)[..n] == w;
    if v != 0 {
      ExtendExtra(v);
      ValueOfBitsOf(Extra(v, n), n);
    }
  }

  lemma ReadDcStep(t: Table, bits: seq<bool>, pred: int, s: byte, rest: seq<bool>, e: int, rest': seq<bool>)
    requires |t.counts| == 16 && |t.vals| == Total(t.counts, 16)
    requires ReadSymbol(t, bits) == Got(s, rest) && ReadValue(s, rest) == Got(e, rest')
    ensures ReadDc(t, bits, pred) == Got(pred + e, rest')
  {
    hide ReadSymbol, ReadValue, Total;
  }

  lemma ReadDcBits(t: Table, v: int, pred: int, more: seq<bool>)
    requires t.Valid() && NBits(Abs(v - pred)) in t.vals
    ensures ReadDc(t, DcBits(t, v - pred) + more, pred) == Got(v, more)
  {
    hide *;
    TableShape(t);
    var diff := v - pred;
    DcShape(t, diff);
    var sym, val := SymBits(t, NBits(Abs(diff))), ValueBits(diff);
    Associate(sym, val, more);
    ReadSymBits(t, NBits(Abs(diff)), val + more);
    ReadValueBits(diff, more);
    ReadDcStep(t, sym + (val + more), pred, NBits(Abs(diff)), val + more, diff, more);
  }

  lemma DcShape(t: Table, diff: int)
    requires t.Valid()
    ensures DcBits(t, diff) == SymBits(t, NBits(Abs(diff))) + ValueBits(diff)
  {
  }

  lemma ReadAcSkip(t: Table, bits: seq<bool>, rest: seq<bool>, z: nat, blk: Block)
    requires |t.counts| == 16 && |t.vals| == Total(t.counts, 16)
    requires ReadSymbol(t, bits) == Got(0xF0, rest) && z + 16 <= 64
    ensures ReadAc(t, bits, z, blk) == ReadAc(t, rest, z + 16, blk)
  {
    hide ReadSymbol, ReadValue, Total;
  }

  lemma AcSymbolParts(r: nat, n: nat)
    requires n < 16
    ensures AcSymbol(r, n) / 16 == r && AcSymbol(r, n) % 16 == n
  {
  }

  lemma ReadAcCoef(t: Table, bits: seq<bool>, s: byte, rest: seq<bool>, v: int, rest': seq<bool>, z: nat, blk: Block)
    requires |t.counts| == 16 && |t.vals| == Total(t.counts, 16)
    requires s % 16 != 0 && z + s / 16 < 64
    requires ReadSymbol(t, bits) == Got(s, rest) && ReadValue(s % 16, rest) == Got(v, rest')
    ensures ReadAc(t, bits, z, blk) == ReadAc(t, rest', z + s / 16 + 1, blk[z + s / 16 := v])
  {
    hide ReadSymbol, ReadValue, Total;
  }

  lemma TableShape(t: Table)
    requires t.Valid()
    ensures |t.counts| == 16 && |t.vals| == Total(t.counts, 16)
  {
  }

  lemma ZrlStep(t: Table, n: nat)
    requires t.Valid() && n > 0
    ensures ZrlBits(t, n) == SymBits(t, 0xF0) + ZrlBits(t, n - 1)
  {
  }

  lemma {:induction false} ReadZrl(t: Table, n: nat, z: nat, blk: Block, more: seq<bool>)
    requires t.Valid() && 0xF0 in t.vals && z + 16 * n < 64
    ensures ReadAc(t, ZrlBits(t, n) + more, z, blk) == ReadAc(t, more, z + 16 * n, blk)
  {
    hide *;
    TableShape(t);
    if n == 0 {
      ZrlZero(t);
    } else {
      var rest := ZrlBits(t, n - 1) + more;
      ZrlStep(t, n);
      Associate(SymBits(t, 0xF0), ZrlBits(t, n - 1), more);
      ReadSymBits(t, 0xF0, rest);
      ReadAcSkip(t, ZrlBits(t, n) + more, rest, z, blk);
      ReadZrl(t, n - 1, z + 16, blk, more);
    }
  }

  lemma ZrlZero(t: Table)
    requires t.Valid()
    ensures forall more :: ZrlBits(t, 0) + more == more
  {
  }

  lemma ReadCoefBits(t: Table, z: nat, run: nat, v: int, blk: Block, more: seq<bool>)
    requires t.Valid() && 0xF0 in t.vals && z + run < 64 && v != 0
    requires 1 <= NBits(Abs(v)) <= 10 && AcSymbol(run % 16, NBits(Abs(v))) in t.vals
    ensures ReadAc(t, CoefBits(t, run, v) + more, z, blk) == ReadAc(t, more, z + run + 1, blk[z + run := v])
  {
    hide *;
    TableShape(t);
    CoefShape(t, run, v);
    AcSymbolParts(run % 16, NBits(Abs(v)));
    var s := AcSymbol(run % 16, NBits(Abs(v)));
    var sym, val := SymBits(t, s), ValueBits(v);
    Associate(ZrlBits(t, run / 16), sym + val, more);
    Associate(sym, val, more);
    var rest := val + more;
    ReadZrl(t, run / 16, z, blk, sym + rest);
    ReadSymBits(t, s, rest);
    ReadValueBits(v, more);
    ReadAcCoef(t, sym + rest, s, rest, v, more, z + 16 * (run / 16), blk);
  }

  lemma CoefShape(t: Table, run: nat, v: int)
    requires t.Valid()
    ensures CoefBits(t, run, v) == ZrlBits(t, run / 16) + (SymBits(t, AcSymbol(run % 16, NBits(Abs(v)))) + ValueBits(v))
  {
  }

  /** The block with the coefficients from `i` on cleared. */
  function Upto(blk: Block, i: nat): Block
    requires i <= 64
  {
    blk[..i] + Zeros(64 - i)
  }

  predicate AcSmall(blk: Block) {
    forall i :: 1 <= i < 64 ==> NBits(Abs(blk[i])) <= 10
  }

  lemma {:induction false} ReadAcBits(c: Coder, blk: Block, i: nat, run: nat, more: seq<bool>)
    requires c.Complete() && AcSmall(blk) && 1 <= i <= 64 && run < i
    requires forall k :: i - run <= k < i ==> blk[k] == 0
    ensures ReadAc(c.ac, AcBits(c.ac, blk, i, run) + more, i - run, Upto(blk, i)) == Got(blk, more)
    decreases 64 - i
  {
    hide *;
    CoderShape(c);
    if i == 64 {
      ReadAcEnd(c, blk, run, more);
    } else if blk[i] == 0 {
      UptoStep(blk, i);
      AcBitsStep(c, blk, i, run);
      ReadAcBits(c, blk, i + 1, run + 1, more);
    } else {
      var tail := AcBits(c.ac, blk, i + 1, 0);
      AcBitsStep(c, blk, i, run);
      ReadAcNext(c, blk, i, run, tail + more);
      Associate(CoefBits(c.ac, run, blk[i]), tail, more);
      ReadAcBits(c, blk, i + 1, 0, more);
    }
  }

  lemma CoderShape(c: Coder)
    requires c.Complete()
    ensures c.dc.Valid() && |c.dc.counts| == 16 && |c.dc.vals| == Total(c.dc.counts, 16)
    ensures c.ac.Valid() && |c.ac.counts| == 16 && |c.ac.vals| == Total(c.ac.counts, 16)
    ensures 0 in c.ac.vals && 0xF0 in c.ac.vals
    ensures forall n :: 0 <= n <= 11 ==> n in c.dc.vals
  {
  }

  lemma UptoStep(blk: Block, i: nat)
    requires i < 64
    ensures Upto(blk, i)[i := blk[i]] == Upto(blk, i + 1)
    ensures blk[i] == 0 ==> Upto(blk, i) == Upto(blk, i + 1)
  {
  }

  lemma AcBitsStep(c: Coder, blk: Block, i: nat, run: nat)
    requires c.Complete() && i < 64
    ensures AcBits(c.ac, blk, i, run)
         == if blk[i] == 0 then AcBits(c.ac, blk, i + 1, run + 1) else CoefBits(c.ac, run, blk[i]) + AcBits(c.ac, blk, i + 1, 0)
  {
    hide CoefBits;
  }

  /** End of block: an EOB after trailing zeros, nothing after a non-zero last coefficient. */
  lemma ReadAcEnd(c: Coder, blk: Block, run: nat, more: seq<bool>)
    requires c.Complete() && run < 64
    ensures ReadAc(c.ac, AcBits(c.ac, blk, 64, run) + more, 64 - run, Upto(blk, 64)) == Got(blk, more)
  {
    assert Upto(blk, 64) == blk;
    if run > 0 {
      ReadSymBits(c.ac, 0, more);
    } else {
      assert AcBits(c.ac, blk, 64, run) + more == more;
    }
  }

  lemma ReadAcNext(c: Coder, blk: Block, i: nat, run: nat, more: seq<bool>)
    requires c.Complete() && AcSmall(blk) && 1 <= i < 64 && run < i && blk[i] != 0
    requires forall k :: i - run <= k < i ==> blk[k] == 0
    ensures ReadAc(c.ac, CoefBits(c.ac, run, blk[i]) + more, i - run, Upto(blk, i)) == ReadAc(c.ac, more, i + 1, Upto(blk, i + 1))
  {
    hide *;
    CoderShape(c);
    AcCovered(c, blk, i, run % 16);
    UptoStep(blk, i);
    ReadCoefBits(c.ac, i - run, run, blk[i], Upto(blk, i), more);
  }

  /** Every symbol of a small coefficient has a code. */
  lemma AcCovered(c: Coder, blk: Block, i: nat, r: nat)
    requires c.Complete() && AcSmall(blk) && 1 <= i < 64 && r < 16 && blk[i] != 0
    ensures c.ac.Valid() && 0xF0 in c.ac.vals && 1 <= NBits(Abs(blk[i])) <= 10
    ensures AcSymbol(r, NBits(Abs(blk[i]))) in c.ac.vals
  {
    NBitsRange(Abs(blk[i]));
  }

  lemma ReadBlockStep(c: Coder, bits: seq<bool>, pred: int, d: int, rest: seq<bool>)
    requires c.Complete() && ReadDc(c.dc, bits, pred) == Got(d, rest)
    ensures ReadBlock(c, bits, pred) == ReadAc(c.ac, rest, 1, ZeroBlock[0 := d])
  {
    hide ReadDc, ReadAc;
  }

  lemma FirstUpto(blk: Block)
    ensures ZeroBlock[0 := blk[0]] == Upto(blk, 1)
  {
  }

  lemma BlockShape(c: Coder, blk: Block, pred: int)
    requires c.Complete()
    ensures BlockBits(c, blk, pred) == DcBits(c.dc, blk[0] - pred) + AcBits(c.ac, blk, 1, 0)
  {
    hide DcBits, AcBits;
  }

  /** One block: what is read back from the written bits is the block, and exactly those bits are used. */
  lemma BlockRoundTrip(c: Coder, blk: Block, pred: int, more: seq<bool>)
    requires c.Complete() && AcSmall(blk) && NBits(Abs(blk[0] - pred)) <= 11
    ensures ReadBlock(c, BlockBits(c, blk, pred) + more, pred) == Got(blk, more)
  {
    hide *;
    CoderShape(c);
    var tail := AcBits(c.ac, blk, 1, 0);
    BlockShape(c, blk, pred);
    Associate(DcBits(c.dc, blk[0] - pred), tail, more);
    ReadDcBits(c.dc, blk[0], pred, tail + more);
    ReadBlockStep(c, BlockBits(c, blk, pred) + more, pred, blk[0], tail + more);
    FirstUpto(blk);
    ReadAcBits(c, blk, 1, 0, more);
  }
}
