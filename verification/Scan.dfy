/**
 A whole scan: blocks of several components with their DC predictors, as bits and as stuffed bytes, and the
 theorem that the decoder reads back exactly the blocks the encoder wrote.
 */
module Scan {
  import opened Bits
  import opened Stuffing
  import opened Entropy

  /** One coded block: its component (0 luma, 1 and 2 chroma) and its quantised coefficients. */
  datatype Unit = Unit(comp: nat, blk: Block)

  /** The coder of a component: luma for component 0, chroma otherwise. */
  function CoderOf(coders: seq<Coder>, comp: nat): Coder
    requires |coders| == 2
  {
    if comp == 0 then coders[0] else coders[1]
  }

  ghost predicate CodersOk(coders: seq<Coder>) {
    |coders| == 2 && coders[0].Valid() && coders[1].Valid()
  }

  predicate Components(us: seq<Unit>) {
    forall i :: 0 <= i < |us| ==> us[i].comp < 3
  }

  /** The bits of a scan, from the given predictors. */
  ghost function ScanBits(coders: seq<Coder>, us: seq<Unit>, pred: seq<int>): seq<bool>
    requires CodersOk(coders) && |pred| == 3 && Components(us)
  {
    if |us| == 0 then [] else
      BlockBits(CoderOf(coders, us[0].comp), us[0].blk, pred[us[0].comp])
      + ScanBits(coders, us[1..], pred[us[0].comp := us[0].blk[0]])
  }

  /** The predictors after a scan. */
  function Preds(us: seq<Unit>, pred: seq<int>): (r: seq<int>)
    requires |pred| == 3 && Components(us)
    ensures |r| == 3
  {
    if |us| == 0 then pred else Preds(us[1..], pred[us[0].comp := us[0].blk[0]])
  }

  lemma ScanShape(coders: seq<Coder>, us: seq<Unit>, pred: seq<int>)
    requires CodersOk(coders) && |pred| == 3 && Components(us) && |us| > 0
    ensures CoderOf(coders, us[0].comp).Valid()
    ensures ScanBits(coders, us, pred)
         == BlockBits(CoderOf(coders, us[0].comp), us[0].blk, pred[us[0].comp])
            + ScanBits(coders, us[1..], pred[us[0].comp := us[0].blk[0]])
    ensures Preds(us, pred) == Preds(us[1..], pred[us[0].comp := us[0].blk[0]])
  {
    hide BlockBits;
  }

  lemma ScanNone(coders: seq<Coder>, pred: seq<int>)
    requires CodersOk(coders) && |pred| == 3
    ensures ScanBits(coders, [], pred) == [] && Preds([], pred) == pred
  {
  }

  /** Appending a block appends its bits. */
  lemma {:induction false} ScanAppend(coders: seq<Coder>, us: seq<Unit>, u: Unit, pred: seq<int>)
    requires CodersOk(coders) && |pred| == 3 && Components(us) && u.comp < 3
    ensures Components(us + [u]) && CoderOf(coders, u.comp).Valid()
    ensures Preds(us + [u], pred) == Preds(us, pred)[u.comp := u.blk[0]]
    ensures ScanBits(coders, us + [u], pred)
         == ScanBits(coders, us, pred) + BlockBits(CoderOf(coders, u.comp), u.blk, Preds(us, pred)[u.comp])
    decreases |us|
  {
    hide BlockBits, ScanBits, Preds;
    ScanShape(coders, us + [u], pred);
    if |us| == 0 {
      ScanNone(coders, pred);
      ScanNone(coders, pred[u.comp := u.blk[0]]);
      assert (us + [u])[1..] == [];
      assert us == [];
    } else {
      var pred' := pred[us[0].comp := us[0].blk[0]];
      assert (us + [u])[1..] == us[1..] + [u];
      ScanAppend(coders, us[1..], u, pred');
      ScanShape(coders, us, pred);
      Associate(
        BlockBits(CoderOf(coders, us[0].comp), us[0].blk, pred[us[0].comp]),
        ScanBits(coders, us[1..], pred'),
        BlockBits(CoderOf(coders, u.comp), u.blk, Preds(us, pred)[u.comp]));
    }
  }

  // ---------- reading a scan ----------

  /** Reading one block of each listed component, as `mcu_load` does over all MCUs. */
  ghost function ReadScan(coders: seq<Coder>, comps: seq<nat>, bits: seq<bool>, pred: seq<int>): Read<seq<Unit>>
    requires CodersOk(coders) && |pred| == 3 && forall i :: 0 <= i < |comps| ==> comps[i] < 3
  {
    if |comps| == 0 then Got([], bits) else
      match ReadBlock(CoderOf(coders, comps[0]), bits, pred[comps[0]])
      case Bad => Bad
      case Got(blk, rest) =>
        match ReadScan(coders, comps[1..], rest, pred[comps[0] := Int16(blk[0])])
        case Bad => Bad
        case Got(us, rest') => Got([Unit(comps[0], blk)] + us, rest')
  }

  function Comps(us: seq<Unit>): (r: seq<nat>)
    ensures |r| == |us| && forall i :: 0 <= i < |us| ==> r[i] == us[i].comp
  {
    seq(|us|, i requires 0 <= i < |us| => us[i].comp)
  }

  /** Blocks and predictors within the categories that have codes. */
  ghost predicate UnitOk(u: Unit) {
    u.comp < 3 && AcSmall(u.blk) && -1024 <= u.blk[0] <= 1016
  }

  ghost predicate UnitsOk(us: seq<Unit>) {
    forall i :: 0 <= i < |us| ==> UnitOk(us[i])
  }

  ghost predicate PredOk(pred: seq<int>) {
    |pred| == 3 && forall c :: 0 <= c < 3 ==> -1024 <= pred[c] <= 1016
  }

  lemma DcDifference(a: int, b: int)
    requires -1024 <= a <= 1016 && -1024 <= b <= 1016
    ensures NBits(Abs(a - b)) <= 11 && Int16(a) == a
  {
    Pow2Values();
    NBitsBound(Abs(a - b), 11);
  }

  lemma ReadScanStep(coders: seq<Coder>, comps: seq<nat>, bits: seq<bool>, pred: seq<int>, blk: Block, rest: seq<bool>)
    requires CodersOk(coders) && |pred| == 3 && |comps| > 0 && forall i :: 0 <= i < |comps| ==> comps[i] < 3
    requires CoderOf(coders, comps[0]).Valid() && ReadBlock(CoderOf(coders, comps[0]), bits, pred[comps[0]]) == Got(blk, rest)
    ensures ReadScan(coders, comps, bits, pred)
         == match ReadScan(coders, comps[1..], rest, pred[comps[0] := Int16(blk[0])])
            case Bad => Bad
            case Got(us, rest') => Got([Unit(comps[0], blk)] + us, rest')
  {
    hide ReadBlock;
  }

  lemma ReadScanNone(coders: seq<Coder>, bits: seq<bool>, pred: seq<int>)
    requires CodersOk(coders) && |pred| == 3
    ensures ReadScan(coders, [], bits, pred) == Got([], bits)
  {
  }

  /** A scan reads back block by block, whatever bits follow. */
  lemma {:induction false} ScanRoundTrip(coders: seq<Coder>, us: seq<Unit>, pred: seq<int>, more: seq<bool>)
    requires CodersOk(coders) && coders[0].Complete() && coders[1].Complete()
    requires UnitsOk(us) && PredOk(pred)
    ensures ReadScan(coders, Comps(us), ScanBits(coders, us, pred) + more, pred) == Got(us, more)
    decreases |us|
  {
    hide ReadScan, ScanBits, ReadBlock, BlockBits, AcSmall, NBits, Preds, CodersOk;
    CodersShape(coders);
    if |us| == 0 {
      assert Comps(us) == [] && us == [];
      ScanNone(coders, pred);
      ReadScanNone(coders, more, pred);
      assert [] + more == more;
    } else {
      var u := us[0];
      var pred' := pred[u.comp := u.blk[0]];
      assert UnitOk(u);
      assert Comps(us)[1..] == Comps(us[1..]);
      assert [u] + us[1..] == us;
      DcDifference(u.blk[0], pred[u.comp]);
      var tail := ScanBits(coders, us[1..], pred') + more;
      ScanShape(coders, us, pred);
      Associate(BlockBits(CoderOf(coders, u.comp), u.blk, pred[u.comp]), ScanBits(coders, us[1..], pred'), more);
      BlockRoundTrip(CoderOf(coders, u.comp), u.blk, pred[u.comp], tail);
      ReadScanStep(coders, Comps(us), ScanBits(coders, us, pred) + more, pred, u.blk, tail);
      ScanRoundTrip(coders, us[1..], pred', more);
    }
  }

  lemma CodersShape(coders: seq<Coder>)
    requires CodersOk(coders)
    ensures |coders| == 2 && coders[0].Valid() && coders[1].Valid()
  {
  }

  /** Prepending blocks already read. */
  function After(done: seq<Unit>, r: Read<seq<Unit>>): Read<seq<Unit>> {
    match r
    case Bad => Bad
    case Got(us, rest) => Got(done + us, rest)
  }

  /** The component list of the MCUs: luma blocks, then one block of each chroma component. */
  function McuComps(nby: nat, ncomp: nat): (r: seq<nat>)
    ensures forall i :: 0 <= i < |r| ==> r[i] < 3
    ensures |r| == nby + (if ncomp == 3 then 2 else 0)
    ensures forall i :: 0 <= i < |r| ==> r[i] == if i < nby then 0 else i - nby + 1
  {
    seq(nby, _ => 0) + if ncomp == 3 then [1, 2] else []
  }

  function ScanComps(nby: nat, ncomp: nat, mcus: nat): (r: seq<nat>)
    ensures forall i :: 0 <= i < |r| ==> r[i] < 3
  {
    if mcus == 0 then [] else McuComps(nby, ncomp) + ScanComps(nby, ncomp, mcus - 1)
  }

  /** One more MCU at the end. */
  lemma {:induction false} ScanCompsMore(nby: nat, ncomp: nat, mcus: nat)
    ensures ScanComps(nby, ncomp, mcus + 1) == ScanComps(nby, ncomp, mcus) + McuComps(nby, ncomp)
  {
    var m := McuComps(nby, ncomp);
    if mcus == 0 {
      assert ScanComps(nby, ncomp, 1) == m + ScanComps(nby, ncomp, 0);
      assert m + [] == m == [] + m;
    } else {
      ScanCompsMore(nby, ncomp, mcus - 1);
      Associate(m, ScanComps(nby, ncomp, mcus - 1), m);
    }
  }

  lemma AfterAfter(a: seq<Unit>, b: seq<Unit>, r: Read<seq<Unit>>)
    ensures After(a, After(b, r)) == After(a + b, r)
  {
    if r.Got? {
      Associate(a, b, r.value);
    }
  }

  lemma AfterNone(r: Read<seq<Unit>>)
    ensures After([], r) == r
  {
    if r.Got? {
      assert [] + r.value == r.value;
    }
  }

  // ---------- the scan as bytes ----------

  /** What `process_end_of_image` leaves in the stream: the stuffed octets of the bits and seven ones, then EOI. */
  function ScanBytes(bits: seq<bool>): seq<byte> {
    Stuff(Pack(bits + Ones(7))) + [0xFF, 0xD9]
  }

  lemma PackedPrefix(bits: seq<bool>, n: nat)
    requires n == 8 * (|bits| / 8)
    ensures n <= |bits| && ByteBits(Pack(bits)) == bits[..n]
  {
    hide *;
    PackRest(bits);
    assert bits[..|ByteBits(Pack(bits))|] == ByteBits(Pack(bits));
  }

  /** How many padding ones complete the last octet of `n` bits. */
  function Padding(n: nat): (k: nat)
    ensures k < 8 && 8 * ((n + 7) / 8) == n + k
  {
    (8 - n % 8) % 8
  }

  lemma OnesPrefix(bits: seq<bool>, n: nat, k: nat)
    requires k <= n
    ensures (bits + Ones(n))[..|bits| + k] == bits + Ones(k)
  {
  }

  /** The final flush writes every data bit; what it drops, and all it adds, is padding ones. */
  lemma FlushKeepsBits(bits: seq<bool>)
    ensures ByteBits(Pack(bits + Ones(7))) == bits + Ones(Padding(|bits|))
  {
    hide *;
    var k := Padding(|bits|);
    PackedPrefix(bits + Ones(7), |bits| + k);
    OnesPrefix(bits, 7, k);
  }

  /**
   The entropy round trip.  For every sequence of blocks within the categories, the bytes the encoder writes,
   up to the marker and whatever follows it, decode to the same blocks, component by component; only padding
   ones (fewer than eight) are left before the marker.
   */
  lemma BytesRoundTrip(coders: seq<Coder>, us: seq<Unit>, after: seq<byte>)
    requires CodersOk(coders) && coders[0].Complete() && coders[1].Complete() && UnitsOk(us)
    ensures var bytes := ScanBytes(ScanBits(coders, us, [0, 0, 0])) + after;
            var seg := Unstuff(bytes);
            && seg.ending == Marker(0xD9)
            && ReadScan(coders, Comps(us), ByteBits(seg.raw), [0, 0, 0])
               == Got(us, Ones(Padding(|ScanBits(coders, us, [0, 0, 0])|)))
  {
    hide *;
    ComponentsOk(us);
    var bits := ScanBits(coders, us, [0, 0, 0]);
    ScanBytesShape(bits, after);
    UnstuffStuff(Pack(bits + Ones(7)), [0xFF, 0xD9] + after);
    FlushKeepsBits(bits);
    ZeroPredOk();
    ScanRoundTrip(coders, us, [0, 0, 0], Ones(Padding(|bits|)));
  }

  lemma ComponentsOk(us: seq<Unit>)
    requires UnitsOk(us)
    ensures Components(us)
  {
    forall i | 0 <= i < |us| ensures us[i].comp < 3 {
      assert UnitOk(us[i]);
    }
  }

  lemma ZeroPredOk()
    ensures PredOk([0, 0, 0])
  {
  }

  lemma ScanBytesShape(bits: seq<bool>, after: seq<byte>)
    ensures ScanBytes(bits) + after == Stuff(Pack(bits + Ones(7))) + ([0xFF, 0xD9] + after)
  {
  }
}
