/**
 The header round trip: what `jd_prepare` makes of the segments `jpg_open` writes.
 */
module HeaderRoundTrip {
  import opened Bits
  import opened Huffman
  import opened HuffmanSearch
  import opened StandardTables
  import opened Zigzag
  import opened Headers
  import opened Prepare
  import opened Decoder
  import Quantizer

  // ---------- one segment ----------

  lemma ParseStart(fast: nat, st: State, buf: seq<byte>, s: MarkerSegment, rest: seq<byte>) returns (b: seq<byte>)
    requires st.Ok() && |buf| >= 16 && s.marker != 0xFF && |s.payload| < 65534
    ensures |b| == |buf|
    ensures Parse(fast, st, buf, s.Bytes() + rest)
         == ParseSegment(fast, st, b, 0xFF00 + s.marker, |s.payload| + 2, s.payload + rest)
  {
    hide ParseSegment;
    var stream := s.Bytes() + rest;
    b := stream[..4] + buf[4..];
    assert stream[4..] == s.payload + rest;
    assert b[0] == 0xFF && b[1] == s.marker;
    assert [b[2], b[3]] == Word(|s.payload| + 2);
  }

  /** Parsing on from the outcome of a segment. */
  function Onward(fast: nat, o: Outcome<State>, buf: seq<byte>, rest: seq<byte>): Outcome<Prepared>
    requires |buf| >= 16 && (o.Done? ==> o.value.Ok())
  {
    match o
    case Failed(rc) => Failed(rc)
    case Done(next) => Parse(fast, next, buf, rest)
  }

  /** A segment that is loaded and applied. */
  lemma ParseLoaded(fast: nat, st: State, buf: seq<byte>, s: MarkerSegment, rest: seq<byte>) returns (b: seq<byte>)
    requires st.Ok() && |buf| >= 16 && s.marker in {0xC0, 0xC4, 0xDB} && 1 <= |s.payload| <= |buf| && |s.payload| < 65534
    ensures |b| == |buf| && b[..|s.payload|] == s.payload
    ensures Parse(fast, st, buf, s.Bytes() + rest)
         == Onward(fast, Apply(fast, st, s.marker, b, |s.payload|), b, rest)
  {
    hide Parse, Apply, MarkerSegment.Bytes;
    b := ParseStart(fast, st, buf, s, rest);
    var n := |s.payload|;
    assert (s.payload + rest)[n..] == rest && (s.payload + rest)[..n] == s.payload;
    b := s.payload + b[n..];
  }

  /** A segment that does not fit the input buffer is refused. */
  lemma ParseTooLong(fast: nat, st: State, buf: seq<byte>, s: MarkerSegment, rest: seq<byte>)
    requires st.Ok() && |buf| >= 16 && s.marker in {0xC0, 0xC4, 0xDB} && |buf| < |s.payload| < 65534
    ensures Parse(fast, st, buf, s.Bytes() + rest) == Failed(JDR_MEM2)
  {
    hide Parse, Apply, MarkerSegment.Bytes;
    var b := ParseStart(fast, st, buf, s, rest);
  }

  /** The start of a scan ends the header. */
  lemma ParseSos(fast: nat, st: State, buf: seq<byte>, s: MarkerSegment, rest: seq<byte>) returns (b: seq<byte>)
    requires st.Ok() && |buf| >= 16 && s.marker == 0xDA && 1 <= |s.payload| <= |buf| && |s.payload| < 65534
    ensures |b| == |buf| && b[..|s.payload|] == s.payload
    ensures Parse(fast, st, buf, s.Bytes() + rest)
         == if Prepare.Sos(fast, st, b).Failed? then Failed(Prepare.Sos(fast, st, b).rc)
            else Done(Prepared(Prepare.Sos(fast, st, b).value, rest))
  {
    hide Parse, Prepare.Sos, MarkerSegment.Bytes;
    b := ParseStart(fast, st, buf, s, rest);
    var n := |s.payload|;
    assert (s.payload + rest)[n..] == rest && (s.payload + rest)[..n] == s.payload;
    b := s.payload + b[n..];
  }

  /** An unknown segment is skipped. */
  lemma ParseSkipped(fast: nat, st: State, buf: seq<byte>, rest: seq<byte>) returns (b: seq<byte>)
    requires st.Ok() && |buf| >= 16
    ensures |b| == |buf| && Parse(fast, st, buf, App0().Bytes() + rest) == Parse(fast, st, b, rest)
  {
    hide Parse, MarkerSegment.Bytes;
    b := ParseStart(fast, st, buf, App0(), rest);
    assert (App0().payload + rest)[14..] == rest;
  }

  // ---------- runs of table segments ----------

  /** The longest segment the encoder writes: an AC table. */
  const MAX_SEGMENT: nat := 179

  predicate TableSegment(s: MarkerSegment) {
    s.marker in {0xC4, 0xDB} && 1 <= |s.payload| <= MAX_SEGMENT
  }

  lemma SegmentsFit(segs: seq<MarkerSegment>, n: nat)
    requires n >= MAX_SEGMENT && forall i :: 0 <= i < |segs| ==> TableSegment(segs[i])
    ensures forall i :: 0 <= i < |segs| ==> |segs[i].payload| <= n
  {
  }

  function ApplyTable(fast: nat, st: State, s: MarkerSegment): (r: Outcome<State>)
    requires st.Ok() && TableSegment(s)
    ensures r.Done? ==> r.value.Ok()
  {
    if s.marker == 0xC4 then HuffTables(fast, st, s.payload) else QtTables(st, s.payload)
  }

  function ApplyAll(fast: nat, st: State, segs: seq<MarkerSegment>): (r: Outcome<State>)
    requires st.Ok() && forall i :: 0 <= i < |segs| ==> TableSegment(segs[i])
    ensures r.Done? ==> r.value.Ok()
    decreases |segs|
  {
    if |segs| == 0 then Done(st) else
    if ApplyTable(fast, st, segs[0]).Failed? then ApplyTable(fast, st, segs[0])
    else ApplyAll(fast, ApplyTable(fast, st, segs[0]).value, segs[1..])
  }

  function AllAfter(fast: nat, o: Outcome<State>, segs: seq<MarkerSegment>): Outcome<State>
    requires (o.Done? ==> o.value.Ok()) && forall i :: 0 <= i < |segs| ==> TableSegment(segs[i])
  {
    match o
    case Failed(rc) => Failed(rc)
    case Done(next) => ApplyAll(fast, next, segs)
  }

  lemma {:induction false} ParseAll(fast: nat, st: State, buf: seq<byte>, segs: seq<MarkerSegment>, rest: seq<byte>)
    returns (b: seq<byte>)
    requires st.Ok() && |buf| >= 16 && forall i :: 0 <= i < |segs| ==> TableSegment(segs[i]) && |segs[i].payload| <= |buf|
    ensures |b| == |buf|
    ensures Parse(fast, st, buf, Flatten(segs) + rest)
         == Onward(fast, ApplyAll(fast, st, segs), b, rest)
    decreases |segs|
  {
    hide Parse, HuffTables, QtTables, MarkerSegment.Bytes;
    if |segs| == 0 {
      b := buf;
      assert Flatten(segs) + rest == rest;
    } else {
      b := ParseLoaded(fast, st, buf, segs[0], Flatten(segs[1..]) + rest);
      Associate(segs[0].Bytes(), Flatten(segs[1..]), rest);
      var next := ApplyTable(fast, st, segs[0]);
      if next.Done? {
        b := ParseAll(fast, next.value, b, segs[1..], rest);
      }
    }
  }

  // ---------- the encoder's segments ----------

  /** The quantiser table the decoder builds from one of the encoder's. */
  function Dequantizer(q: seq<int>): (r: seq<int>)
    requires |q| == 64
    ensures |r| == 64
  {
    QtTable(AsBytes(q))
  }

  /** It undoes the zigzag order and applies the scale factors. */
  lemma DequantizerEntries(q: seq<int>)
    requires Quantizer.IsQuantTable(q)
    ensures forall z :: 0 <= z < 64 ==> Zig(z) < 64 && Dequantizer(q)[Zig(z)] == q[z] * Ipsf(Zig(z))
  {
    ZigzagIsPermutation();
    hide Zig, Inv, Ipsf;
    forall z | 0 <= z < 64 ensures Zig(z) < 64 && Dequantizer(q)[Zig(z)] == q[z] * Ipsf(Zig(z)) {
      assert InverseAt(z);
    }
  }

  lemma DqtApplied(fast: nat, st: State, i: nat, q: seq<int>)
    requires st.Ok() && i < 2 && Quantizer.IsQuantTable(q)
    ensures TableSegment(Dqt(i, q))
    ensures ApplyTable(fast, st, Dqt(i, q))
         == if st.szPool < 256 then Failed(JDR_MEM1)
            else Done(st.(qttbl := st.qttbl[i := Dequantizer(q)], szPool := st.szPool - 256))
  {
    hide QtTable;
    var data := Dqt(i, q).payload;
    assert data[1..65] == AsBytes(q) && data[65..] == [] && data[0] == i;
    if st.szPool >= 256 {
      NoTablesLeft(fast, st.(qttbl := st.qttbl[i := Dequantizer(q)], szPool := st.szPool - 256));
    }
  }

  lemma NoTablesLeft(fast: nat, st: State)
    requires st.Ok()
    ensures QtTables(st, []) == Done(st) && HuffTables(fast, st, []) == Done(st)
  {
  }

  /** What a code table takes from the pool. */
  function TableCost(fast: nat, ac: bool): nat {
    (if ac then 504 else 52) + LutBytes(fast, ac)
  }

  lemma DhtApplied(fast: nat, st: State, t: Table, num: nat, ac: bool)
    requires st.Ok() && num < 2 && t.Valid() && |t.counts| == 16 && |t.vals| == (if ac then 162 else 12) && SymbolsFit(ac, t.vals)
    ensures var s := Dht(t, num + if ac then 16 else 0);
            && TableSegment(s)
            && ApplyTable(fast, st, s)
            == if st.szPool < TableCost(fast, ac) then Failed(JDR_MEM1)
               else Done(WithTable(st, num, ac, t, st.szPool - TableCost(fast, ac)))
  {
    hide Total, SymbolsFit, HuffTables, HuffTable;
    var data := Dht(t, num + if ac then 16 else 0).payload;
    assert data[1..17] == t.counts && data[17..17 + |t.vals|] == t.vals && data[17 + |t.vals|..] == [];
    OneHuffTable(fast, st, data, num, ac, t);
    if st.szPool >= TableCost(fast, ac) {
      NoTablesLeft(fast, WithTable(st, num, ac, t, st.szPool - TableCost(fast, ac)));
    }
    OneHuffTableFirst(fast, st, data);
  }

  lemma OneHuffTable(fast: nat, st: State, data: seq<byte>, num: nat, ac: bool, t: Table)
    requires st.Ok() && num < 2 && t.Valid() && |t.counts| == 16 && |t.vals| == (if ac then 162 else 12) && SymbolsFit(ac, t.vals)
    requires |data| == 17 + |t.vals| && data[0] == num + (if ac then 16 else 0)
    requires data[1..17] == t.counts && data[17..17 + |t.vals|] == t.vals
    ensures HuffTable(fast, st, data)
         == if st.szPool < TableCost(fast, ac) then Failed(JDR_MEM1)
            else Done((WithTable(st, num, ac, t, st.szPool - TableCost(fast, ac)), |data|))
  {
    hide Total, SymbolsFit;
  }

  lemma OneHuffTableFirst(fast: nat, st: State, data: seq<byte>)
    requires st.Ok() && |data| > 0
    ensures var one := HuffTable(fast, st, data);
            HuffTables(fast, st, data) == if one.Failed? then Failed(one.rc) else HuffTables(fast, one.value.0, data[one.value.1..])
  {
    hide HuffTable;
  }

  function WithTable(st: State, num: nat, ac: bool, t: Table, sz: nat): (r: State)
    requires st.Ok() && num < 2
    ensures r.Ok()
  {
    var cls := if ac then 1 else 0;
    st.(tables := st.tables[num := st.tables[num][cls := t]], loaded := st.loaded[num := st.loaded[num][cls := true]], szPool := sz)
  }

  /** The state once the quantisers (`q`), the frame (`f`) and the code tables (`t`) of the image have been read. */
  function At(p: Image, q: bool, f: bool, t: bool, sz: nat): (r: State)
    requires p.ncomp in {1, 3} && |p.quant| == 2 && |p.quant[0]| == 64 && |p.quant[1]| == 64
    ensures r.Ok()
  {
    var colour := p.ncomp == 3;
    State(
      if f then p.width % 65536 else 0, if f then p.height % 65536 else 0,
      if f then p.ncomp else 0, if f then p.h else 0, if f then p.v else 0, 0,
      if f && colour then [0, 1, 1] else [0, 0, 0],
      [if q then Dequantizer(p.quant[0]) else [], if q && colour then Dequantizer(p.quant[1]) else [], [], []],
      [[if t then DcTable(false) else NoCodes(), if t then AcTable(false) else NoCodes()],
       [if t && colour then DcTable(true) else NoCodes(), if t && colour then AcTable(true) else NoCodes()]],
      [[t, t], [t && colour, t && colour]], sz)
  }

  function QuantCost(p: Image): nat {
    if p.ncomp == 3 then 512 else 256
  }

  lemma QuantApplied(fast: nat, p: Image, sz: nat)
    requires p.Ok()
    ensures forall i :: 0 <= i < |QuantSegments(p.ncomp, p.quant)| ==> TableSegment(QuantSegments(p.ncomp, p.quant)[i])
    ensures ApplyAll(fast, At(p, false, false, false, sz), QuantSegments(p.ncomp, p.quant))
         == if sz < QuantCost(p) then Failed(JDR_MEM1) else Done(At(p, true, false, false, sz - QuantCost(p)))
  {
    hide ApplyTable, Dqt, DcTable, AcTable, NoCodes, TableSegment, ApplyAll, Dequantizer;
    var st := At(p, false, false, false, sz);
    DqtApplied(fast, st, 0, p.quant[0]);
    ApplyOne(fast, st, Dqt(0, p.quant[0]), []);
    if p.ncomp == 3 {
      var segs := [Dqt(0, p.quant[0])] + [Dqt(1, p.quant[1])];
      assert segs == QuantSegments(p.ncomp, p.quant);
      DqtApplied(fast, st, 1, p.quant[1]);
      ApplyOne(fast, st, Dqt(0, p.quant[0]), [Dqt(1, p.quant[1])]);
      if sz >= 256 {
        var st1 := st.(qttbl := st.qttbl[0 := Dequantizer(p.quant[0])], szPool := sz - 256);
        DqtApplied(fast, st1, 1, p.quant[1]);
        assert [Dqt(1, p.quant[1])] + [] == [Dqt(1, p.quant[1])];
        ApplyOne(fast, st1, Dqt(1, p.quant[1]), []);
        if sz >= 512 {
          var st2 := At(p, true, false, false, sz - 512);
          assert st1.qttbl[1 := Dequantizer(p.quant[1])] == st2.qttbl;
          ApplyOne(fast, st2, Dqt(1, p.quant[1]), []);
        }
      }
    } else {
      assert [Dqt(0, p.quant[0])] + [] == QuantSegments(p.ncomp, p.quant);
      if sz >= 256 {
        assert st.qttbl[0 := Dequantizer(p.quant[0])] == At(p, true, false, false, sz - 256).qttbl;
        ApplyOne(fast, At(p, true, false, false, sz - 256), Dqt(0, p.quant[0]), []);
      }
    }
  }

  lemma ApplyOne(fast: nat, st: State, s: MarkerSegment, segs: seq<MarkerSegment>)
    requires st.Ok() && TableSegment(s) && forall i :: 0 <= i < |segs| ==> TableSegment(segs[i])
    ensures forall i :: 0 <= i < |[s] + segs| ==> TableSegment(([s] + segs)[i])
    ensures ApplyAll(fast, st, [s] + segs)
         == AllAfter(fast, ApplyTable(fast, st, s), segs)
    ensures ApplyAll(fast, st, []) == Done(st)
  {
    hide ApplyTable, TableSegment;
    assert ([s] + segs)[1..] == segs;
  }

  /** What the code tables of one component class take. */
  function ClassCost(fast: nat): nat {
    TableCost(fast, false) + TableCost(fast, true)
  }

  function TablesCost(fast: nat, p: Image): nat {
    if p.ncomp == 3 then ClassCost(fast) + ClassCost(fast) else ClassCost(fast)
  }

  lemma ClassShape(chroma: bool)
    ensures |Tables(chroma)| == 2
    ensures Tables(chroma) == [Tables(chroma)[0]] + ([Tables(chroma)[1]] + [])
    ensures Tables(chroma)[0] == Dht(DcTable(chroma), if chroma then 1 else 0)
    ensures Tables(chroma)[1] == Dht(AcTable(chroma), if chroma then 0x11 else 0x10)
  {
    hide Dht, DcTable, AcTable;
  }

  lemma ClassTables(chroma: bool)
    ensures var dc, ac := DcTable(chroma), AcTable(chroma);
            && dc.Valid() && ac.Valid() && |dc.counts| == 16 && |ac.counts| == 16
            && |dc.vals| == 12 && |ac.vals| == 162 && SymbolsFit(false, dc.vals) && SymbolsFit(true, ac.vals)
  {
    hide CoefficientSymbols, KraftSum, Total;
    DcTableOk(chroma);
    AcTableOk(chroma);
    assert forall n :: 0 <= n < 12 ==> DcTable(chroma).vals[n] == n;
  }

  /** The state with the tables of a component class. */
  function WithClass(fast: nat, st: State, chroma: bool): (r: State)
    requires st.Ok() && st.szPool >= ClassCost(fast)
    ensures r.Ok()
  {
    var num := if chroma then 1 else 0;
    var st1 := WithTable(st, num, false, DcTable(chroma), st.szPool - TableCost(fast, false));
    WithTable(st1, num, true, AcTable(chroma), st1.szPool - TableCost(fast, true))
  }

  lemma ClassApplied(fast: nat, st: State, chroma: bool)
    requires st.Ok()
    ensures forall i :: 0 <= i < |Tables(chroma)| ==> TableSegment(Tables(chroma)[i])
    ensures ApplyAll(fast, st, Tables(chroma))
         == if st.szPool < ClassCost(fast) then Failed(JDR_MEM1) else Done(WithClass(fast, st, chroma))
  {
    hide ApplyTable, Dht, DcTable, AcTable, TableSegment, ApplyAll, Tables, Table.Valid, SymbolsFit, TableCost, WithTable;
    ClassShape(chroma);
    ClassTables(chroma);
    var num := if chroma then 1 else 0;
    var dc, ac := Tables(chroma)[0], Tables(chroma)[1];
    DhtApplied(fast, st, DcTable(chroma), num, false);
    DhtApplied(fast, st, AcTable(chroma), num, true);
    ApplyOne(fast, st, ac, []);
    ApplyOne(fast, st, dc, [ac] + []);
    if st.szPool >= TableCost(fast, false) {
      var st1 := WithTable(st, num, false, DcTable(chroma), st.szPool - TableCost(fast, false));
      WithTableSize(st, num, false, DcTable(chroma), st.szPool - TableCost(fast, false));
      DhtApplied(fast, st1, AcTable(chroma), num, true);
      ApplyOne(fast, st1, ac, []);
      if st1.szPool >= TableCost(fast, true) {
        ApplyOne(fast, WithTable(st1, num, true, AcTable(chroma), st1.szPool - TableCost(fast, true)), ac, []);
      }
    }
  }

  lemma WithTableSize(st: State, num: nat, ac: bool, t: Table, sz: nat)
    requires st.Ok() && num < 2
    ensures WithTable(st, num, ac, t, sz).szPool == sz
  {
  }

  // ---------- the frame and the scan header ----------

  lemma WordValue(i: nat)
    ensures Ldb(Word(i), 0) == i % 65536
  {
  }

  /** A word inside a segment that was loaded at the start of the buffer. */
  lemma LdbAt(buf: seq<byte>, payload: seq<byte>, i: nat, w: nat)
    requires |payload| <= |buf| && buf[..|payload|] == payload && i + 2 <= |payload| && payload[i..i + 2] == Word(w)
    ensures Ldb(buf, i) == w % 65536
  {
    WordValue(w);
    assert buf[i] == payload[i] == payload[i..i + 2][0] && buf[i + 1] == payload[i + 1] == payload[i..i + 2][1];
  }

  lemma ComponentBytes(p: Image)
    requires p.Ok()
    ensures p.ncomp <= 3 && p.h <= 2 && p.v <= 2
    ensures var c := Headers.SofComponents(p.ncomp, p.h, p.v);
            && |c| == 3 * p.ncomp && c[..3] == [1, p.h * 16 + p.v, 0]
            && (p.ncomp == 3 ==> c == [1, p.h * 16 + p.v, 0, 2, 0x11, 1, 3, 0x11, 1])
  {
    var c1 := Headers.SofComponents(1, p.h, p.v);
    assert c1 == [] + SofComponent(0, p.h, p.v);
    if p.ncomp == 3 {
      var c2 := Headers.SofComponents(2, p.h, p.v);
      assert c2 == c1 + SofComponent(1, p.h, p.v);
      assert Headers.SofComponents(3, p.h, p.v) == c2 + SofComponent(2, p.h, p.v);
    }
  }

  lemma SofBytes(p: Image)
    requires p.Ok()
    ensures p.ncomp <= 3 && p.h <= 2 && p.v <= 2
    ensures var s := Headers.Sof(p).payload;
            && |s| == 6 + 3 * p.ncomp && s[1..3] == Word(p.height) && s[3..5] == Word(p.width) && s[5] == p.ncomp
            && s[7] == p.h * 16 + p.v && s[8] == 0
            && (p.ncomp == 3 ==> s[10] == 0x11 && s[11] == 1 && s[13] == 0x11 && s[14] == 1)
  {
    hide Headers.SofComponents;
    ComponentBytes(p);
    var s, c := Headers.Sof(p).payload, Headers.SofComponents(p.ncomp, p.h, p.v);
    assert s[6..] == c;
    assert c[..3][1] == s[7] && c[..3][2] == s[8];
  }

  lemma SofApplied(fast: nat, p: Image, sz: nat, buf: seq<byte>)
    requires p.Ok() && |buf| >= 16 && p.ncomp <= 3 && p.h <= 2 && p.v <= 2
    requires |Headers.Sof(p).payload| <= |buf| && buf[..|Headers.Sof(p).payload|] == Headers.Sof(p).payload
    ensures Prepare.Sof(At(p, true, false, false, sz), buf) == Done(At(p, true, true, false, sz))
  {
    hide Dequantizer, DcTable, AcTable, NoCodes, Headers.Sof, Ldb;
    SofBytes(p);
    var s := Headers.Sof(p).payload;
    LdbAt(buf, s, 1, p.height);
    LdbAt(buf, s, 3, p.width);
    assert forall i :: 0 <= i < |s| ==> buf[i] == buf[..|s|][i];
    FrameRead(p, sz, buf);
  }

  lemma FrameRead(p: Image, sz: nat, buf: seq<byte>)
    requires p.Ok() && |buf| >= 16 && Ldb(buf, 1) == p.height % 65536 && Ldb(buf, 3) == p.width % 65536
    requires buf[5] == p.ncomp && buf[7] == p.h * 16 + p.v && buf[8] == 0
    requires p.ncomp == 3 ==> buf[10] == 0x11 && buf[11] == 1 && buf[13] == 0x11 && buf[14] == 1
    ensures Prepare.Sof(At(p, true, false, false, sz), buf) == Done(At(p, true, true, false, sz))
  {
    hide Dequantizer, DcTable, AcTable, NoCodes, Ldb, Prepare.SofComponents;
    var st0 := At(p, true, false, false, sz).(width := p.width % 65536, height := p.height % 65536, ncomp := p.ncomp);
    var st1 := st0.(msx := p.h, msy := p.v, qtid := [0, 0, 0]);
    assert st0.qtid[0 := 0] == [0, 0, 0];
    ComponentStep(st0, buf, 0);
    if p.ncomp == 3 {
      assert [0, 0, 0][1 := 1] == [0, 1, 0] && [0, 1, 0][2 := 1] == [0, 1, 1];
      ComponentStep(st1, buf, 1);
      ComponentStep(st1.(qtid := [0, 1, 0]), buf, 2);
      ComponentsDone(st1.(qtid := [0, 1, 1]), buf, 3);
    } else {
      ComponentsDone(st1, buf, 1);
    }
  }

  lemma ComponentStep(st: State, buf: seq<byte>, i: nat)
    requires st.Ok() && |buf| >= 16 && i < st.ncomp && buf[8 + 3 * i] <= 3
    requires if i == 0 then buf[7] in {0x11, 0x21, 0x22} else buf[7 + 3 * i] == 0x11
    ensures var st1 := if i == 0 then st.(msx := buf[7] / 16, msy := buf[7] % 16) else st;
            Prepare.SofComponents(st, buf, i) == Prepare.SofComponents(st1.(qtid := st1.qtid[i := buf[8 + 3 * i]]), buf, i + 1)
  {
  }

  lemma ComponentsDone(st: State, buf: seq<byte>, i: nat)
    requires st.Ok() && |buf| >= 16 && i >= st.ncomp
    ensures Prepare.SofComponents(st, buf, i) == Done(st)
  {
  }

  /** What the buffers of the scan take: workspace and MCU samples. */
  function ScanCost(fast: nat, p: Image): nat {
    WorkBytes(p.h * p.v) + McuBytes(fast, p.h * p.v)
  }

  lemma SosBytes(ncomp: nat)
    requires ncomp in {1, 3}
    ensures var s := Headers.Sos(ncomp).payload;
            |s| == 4 + 2 * ncomp && s[0] == ncomp && s[2] == 0 && (ncomp == 3 ==> s[4] == 0x11 && s[6] == 0x11)
  {
    assert Headers.SosComponents(1) == [] + [1, 0];
    if ncomp == 3 {
      assert Headers.SosComponents(2) == Headers.SosComponents(1) + [2, 0x11];
      assert Headers.SosComponents(3) == Headers.SosComponents(2) + [3, 0x11];
    }
  }

  lemma SosApplied(fast: nat, p: Image, sz: nat, buf: seq<byte>)
    requires p.Ok() && |buf| >= 16 && buf[0] == p.ncomp && buf[2] == 0 && (p.ncomp == 3 ==> buf[4] == 0x11 && buf[6] == 0x11)
    ensures Prepare.Sos(fast, At(p, true, true, true, sz), buf)
         == if p.width % 65536 == 0 || p.height % 65536 == 0 then Failed(JDR_FMT1)
            else if sz < ScanCost(fast, p) then Failed(JDR_MEM1)
            else Done(At(p, true, true, true, sz - ScanCost(fast, p)))
  {
    hide Dequantizer, DcTable, AcTable, NoCodes, Prepare.SosComponents;
    var st := At(p, true, true, true, sz);
    if p.ncomp == 3 {
      SosStep(st, buf, 2);
      SosStep(st, buf, 1);
      SosDone(st, buf, 3);
    } else {
      SosDone(st, buf, 1);
    }
    SosStep(st, buf, 0);
  }

  lemma SosStep(st: State, buf: seq<byte>, i: nat)
    requires st.Ok() && |buf| >= 16 && i < st.ncomp && buf[2 + 2 * i] in {0x00, 0x11}
    requires var n := if i > 0 then 1 else 0; st.loaded[n][0] && st.loaded[n][1]
    requires |st.qttbl[st.qtid[i]]| == 64
    ensures Prepare.SosComponents(st, buf, i) == Prepare.SosComponents(st, buf, i + 1)
  {
  }

  lemma SosDone(st: State, buf: seq<byte>, i: nat)
    requires st.Ok() && |buf| >= 16 && i >= st.ncomp
    ensures Prepare.SosComponents(st, buf, i) == Done(())
  {
  }

  // ---------- the whole header ----------

  lemma {:induction false} ApplyConcat(fast: nat, st: State, a: seq<MarkerSegment>, b: seq<MarkerSegment>)
    requires st.Ok() && (forall i :: 0 <= i < |a| ==> TableSegment(a[i])) && forall i :: 0 <= i < |b| ==> TableSegment(b[i])
    ensures forall i :: 0 <= i < |a + b| ==> TableSegment((a + b)[i])
    ensures ApplyAll(fast, st, a + b) == AllAfter(fast, ApplyAll(fast, st, a), b)
    decreases |a|
  {
    hide TableSegment, ApplyTable;
    if |a| == 0 {
      assert a + b == b;
    } else {
      assert (a + b)[1..] == a[1..] + b;
      var next := ApplyTable(fast, st, a[0]);
      if next.Done? {
        ApplyConcat(fast, next.value, a[1..], b);
      }
    }
  }

  lemma ClassAt(fast: nat, p: Image, sz: nat)
    requires p.Ok() && sz >= TablesCost(fast, p)
    ensures var st := At(p, true, true, false, sz);
            var st1 := WithClass(fast, st, false);
            At(p, true, true, true, sz - TablesCost(fast, p)) == if p.ncomp == 3 then WithClass(fast, st1, true) else st1
  {
    hide Dequantizer, DcTable, AcTable, NoCodes, TableCost;
    var st := At(p, true, true, false, sz);
    var st1 := WithClass(fast, st, false);
    var none := [NoCodes(), NoCodes()];
    Pairs(none, DcTable(false), AcTable(false));
    Pairs([false, false], true, true);
    Pairs(none, DcTable(true), AcTable(true));
    Outer([none, none], [DcTable(false), AcTable(false)], [DcTable(true), AcTable(true)]);
    Outer([[false, false], [false, false]], [true, true], [true, true]);
    if p.ncomp == 3 {
      var st2 := WithClass(fast, st1, true);
    }
  }

  lemma Pairs<T>(s: seq<T>, a: T, b: T)
    requires |s| == 2
    ensures s[0 := a][1 := b] == [a, b]
  {
  }

  lemma Outer<T>(s: seq<seq<T>>, a: seq<T>, b: seq<T>)
    requires |s| == 2
    ensures s[0 := a] == [a, s[1]] && s[0 := a][1 := b] == [a, b]
  {
  }

  lemma TablesApplied(fast: nat, p: Image, sz: nat)
    requires p.Ok()
    ensures forall i :: 0 <= i < |TableSegments(p.ncomp)| ==> TableSegment(TableSegments(p.ncomp)[i])
    ensures ApplyAll(fast, At(p, true, true, false, sz), TableSegments(p.ncomp))
         == if sz < TablesCost(fast, p) then Failed(JDR_MEM1) else Done(At(p, true, true, true, sz - TablesCost(fast, p)))
  {
    hide At, Tables, TableSegment, ApplyAll, WithClass, TableCost;
    AtPool(p, true, true, false, sz);
    var st := At(p, true, true, false, sz);
    ClassApplied(fast, st, false);
    ClassApplied(fast, st, true);
    if sz >= TablesCost(fast, p) {
      ClassAt(fast, p, sz);
    }
    if p.ncomp == 3 {
      ApplyConcat(fast, st, Tables(false), Tables(true));
      if sz >= ClassCost(fast) {
        ClassPool(fast, st, false);
        ClassApplied(fast, WithClass(fast, st, false), true);
      }
    } else {
      assert Tables(false) + [] == Tables(false);
    }
  }

  lemma AtPool(p: Image, q: bool, f: bool, t: bool, sz: nat)
    requires p.Ok()
    ensures At(p, q, f, t, sz).szPool == sz && p.ncomp in {1, 3}
  {
  }

  lemma ClassPool(fast: nat, st: State, chroma: bool)
    requires st.Ok() && st.szPool >= ClassCost(fast)
    ensures WithClass(fast, st, chroma).szPool == st.szPool - ClassCost(fast)
  {
  }

  /** What the pool must hold before the scan header, and in all. */
  function TablesNeed(fast: nat, szBuf: nat, p: Image): nat {
    (szBuf + 3) / 4 * 4 + QuantCost(p) + TablesCost(fast, p)
  }

  function PoolNeed(fast: nat, szBuf: nat, p: Image): nat {
    TablesNeed(fast, szBuf, p) + ScanCost(fast, p)
  }

  /** A size the 16-bit fields of the frame header can carry: neither side a multiple of 65536. */
  predicate Representable(p: Image) {
    p.width % 65536 != 0 && p.height % 65536 != 0
  }

  /**
   With an input buffer too small for the AC table: the buffer is at fault, at the first quantiser table (65
   bytes) or at the AC table, unless the pool runs out before.
   */
  function RefusedWith(fast: nat, szPool: nat, szBuf: nat, p: Image): int {
    var buffer := (szBuf + 3) / 4 * 4;
    if szPool < buffer || (szBuf >= 65 && szPool < buffer + QuantCost(p) + TableCost(fast, false)) then JDR_MEM1 else JDR_MEM2
  }

  /** What `jd_prepare` makes of the encoder's header. */
  function Expected(fast: nat, szPool: nat, szBuf: nat, p: Image, rest: seq<byte>): Outcome<Prepared>
    requires p.ncomp in {1, 3} && |p.quant| == 2 && |p.quant[0]| == 64 && |p.quant[1]| == 64
  {
    if szBuf < MAX_SEGMENT then Failed(RefusedWith(fast, szPool, szBuf, p))
    else if szPool < TablesNeed(fast, szBuf, p) then Failed(JDR_MEM1)
    else if !Representable(p) then Failed(JDR_FMT1)
    else if szPool < PoolNeed(fast, szBuf, p) then Failed(JDR_MEM1)
    else Done(Prepared(At(p, true, true, true, szPool - PoolNeed(fast, szBuf, p)), rest))
  }

  /**
   The header round trip.  For every image, whatever follows its header: `jd_prepare` succeeds exactly when the
   pool and the input buffer are large enough and the size is representable, and then recovers size (modulo
   2^16), components, sampling, quantisers and codes, and stops at the first byte of the scan.
   */
  lemma HeaderRoundTrip(fast: nat, szPool: nat, buf: seq<byte>, p: Image, rest: seq<byte>)
    requires p.Ok() && |buf| >= 16
    ensures p.ncomp <= 3 && p.h <= 2 && p.v <= 2 && |p.quant| == 2 && |p.quant[0]| == 64 && |p.quant[1]| == 64
    ensures PrepareImage(fast, szPool, buf, Header(p) + rest) == Expected(fast, szPool, |buf|, p, rest)
  {
    hide *;
    OkShape(p);
    StartShape(fast, szPool, buf, p, rest);
    if szPool >= (|buf| + 3) / 4 * 4 {
      var sz := szPool - (|buf| + 3) / 4 * 4;
      if |buf| >= MAX_SEGMENT {
        AfterSoi(fast, sz, [0xD8] + buf[1..], p, rest);
      } else {
        RefusedAfterSoi(fast, sz, [0xD8] + buf[1..], p, rest);
      }
    }
    ExpectedShape(fast, szPool, |buf|, p, rest);
  }

  /** Whatever follows it, the encoder's header is parsed without reading beyond the image. */
  lemma HeaderStaysInside(fast: nat, szPool: nat, buf: seq<byte>, p: Image, rest: seq<byte>)
    requires p.Ok() && |buf| >= 16
    ensures p.ncomp <= 3 && p.h <= 2 && p.v <= 2 && |p.quant| == 2
    ensures SkipsStayInside(fast, szPool, buf, Header(p) + rest)
  {
    hide PrepareImage, Header, TablesNeed, PoolNeed, RefusedWith, At, FindSoi, LengthsInside, Representable;
    HeaderRoundTrip(fast, szPool, buf, p, rest);
    RefusalIsMemory(fast, szPool, |buf|, p);
  }

  lemma RefusalIsMemory(fast: nat, szPool: nat, szBuf: nat, p: Image)
    ensures RefusedWith(fast, szPool, szBuf, p) in {JDR_MEM1, JDR_MEM2}
  {
    hide TableCost, QuantCost;
  }

  /** A size of 65536 is written as 0, and refused. */
  lemma ZeroWidth(fast: nat, szPool: nat, buf: seq<byte>, p: Image, rest: seq<byte>)
    requires p.Ok() && p.width == 65536 && |buf| >= MAX_SEGMENT && szPool >= TablesNeed(fast, |buf|, p)
    ensures p.ncomp <= 3 && p.h <= 2 && p.v <= 2 && |p.quant| == 2
    ensures PrepareImage(fast, szPool, buf, Header(p) + rest) == Failed(JDR_FMT1)
  {
    hide PrepareImage, Header, TablesNeed, At;
    HeaderRoundTrip(fast, szPool, buf, p, rest);
  }

  lemma OkShape(p: Image)
    requires p.Ok()
    ensures p.ncomp in {1, 3} && p.h <= 2 && p.v <= 2 && |p.quant| == 2 && |p.quant[0]| == 64 && |p.quant[1]| == 64
  {
  }

  /** The parts of the header after SOI, in order. */
  function Body(p: Image): seq<byte>
    requires p.ncomp <= 3 && p.h <= 2 && p.v <= 2 && |p.quant| == 2
  {
    App0().Bytes() + (Flatten(QuantSegments(p.ncomp, p.quant))
    + (Headers.Sof(p).Bytes() + (Flatten(TableSegments(p.ncomp)) + Headers.Sos(p.ncomp).Bytes())))
  }

  lemma StartShape(fast: nat, szPool: nat, buf: seq<byte>, p: Image, rest: seq<byte>)
    requires p.Ok() && |buf| >= 16
    ensures p.ncomp <= 3 && p.h <= 2 && p.v <= 2 && |p.quant| == 2 && |p.quant[0]| == 64 && |p.quant[1]| == 64
    ensures PrepareImage(fast, szPool, buf, Header(p) + rest)
         == if szPool < (|buf| + 3) / 4 * 4 then Failed(JDR_MEM1)
            else Parse(fast, At(p, false, false, false, szPool - (|buf| + 3) / 4 * 4), [0xD8] + buf[1..], Body(p) + rest)
  {
    hide Parse, Header, Body, FindSoi, Dequantizer;
    HeaderIsBody(p, rest);
    SoiFirst(Body(p) + rest);
  }

  lemma HeaderIsBody(p: Image, rest: seq<byte>)
    requires p.Ok()
    ensures p.ncomp <= 3 && p.h <= 2 && p.v <= 2 && |p.quant| == 2
    ensures Header(p) + rest == [0xFF, 0xD8] + (Body(p) + rest)
  {
    hide Flatten, QuantSegments, TableSegments, Headers.Sof, Headers.Sos, MarkerSegment.Bytes;
    HeaderParts([], p);
    assert [] + Header(p) == Header(p);
  }

  lemma SoiFirst(rest: seq<byte>)
    ensures FindSoi([0xFF, 0xD8] + rest, 0) == Done(rest)
  {
    var s := [0xFF, 0xD8] + rest;
    assert FindSoi(s, 0) == FindSoi(s[1..], 0xFF);
    assert s[1..][1..] == rest;
  }

  /** What parsing gives from the scan header on, with `sz` bytes left in the pool. */
  function FromScan(fast: nat, sz: nat, p: Image, rest: seq<byte>): Outcome<Prepared>
    requires p.ncomp in {1, 3} && |p.quant| == 2 && |p.quant[0]| == 64 && |p.quant[1]| == 64
  {
    if !Representable(p) then Failed(JDR_FMT1)
    else if sz < ScanCost(fast, p) then Failed(JDR_MEM1)
    else Done(Prepared(At(p, true, true, true, sz - ScanCost(fast, p)), rest))
  }

  lemma AfterTables(fast: nat, sz: nat, buf: seq<byte>, p: Image, rest: seq<byte>)
    requires p.Ok() && |buf| >= MAX_SEGMENT
    ensures p.ncomp in {1, 3} && p.h <= 2 && p.v <= 2 && |p.quant| == 2 && |p.quant[0]| == 64 && |p.quant[1]| == 64
    ensures Parse(fast, At(p, true, true, true, sz), buf, Headers.Sos(p.ncomp).Bytes() + rest) == FromScan(fast, sz, p, rest)
  {
    hide At, Parse, Prepare.Sos, Headers.Sos, MarkerSegment.Bytes;
    OkShape(p);
    SosBytes(p.ncomp);
    SosMarker(p.ncomp);
    var s := Headers.Sos(p.ncomp);
    var b := ParseSos(fast, At(p, true, true, true, sz), buf, s, rest);
    assert forall i :: 0 <= i < |s.payload| ==> b[i] == b[..|s.payload|][i];
    SosApplied(fast, p, sz, b);
  }

  lemma SosMarker(ncomp: nat)
    requires ncomp <= 3
    ensures Headers.Sos(ncomp).marker == 0xDA
  {
  }

  lemma AfterFrame(fast: nat, sz: nat, buf: seq<byte>, p: Image, rest: seq<byte>)
    requires p.Ok() && |buf| >= MAX_SEGMENT
    ensures p.ncomp in {1, 3} && p.h <= 2 && p.v <= 2 && |p.quant| == 2 && |p.quant[0]| == 64 && |p.quant[1]| == 64
    ensures Parse(fast, At(p, true, true, false, sz), buf, Flatten(TableSegments(p.ncomp)) + (Headers.Sos(p.ncomp).Bytes() + rest))
         == if sz < TablesCost(fast, p) then Failed(JDR_MEM1) else FromScan(fast, sz - TablesCost(fast, p), p, rest)
  {
    hide At, Parse, Headers.Sos, MarkerSegment.Bytes, ApplyAll, TableSegments, TableSegment, Flatten, FromScan, TablesCost;
    OkShape(p);
    TablesApplied(fast, p, sz);
    SegmentsFit(TableSegments(p.ncomp), |buf|);
    var b := ParseAll(fast, At(p, true, true, false, sz), buf, TableSegments(p.ncomp), Headers.Sos(p.ncomp).Bytes() + rest);
    if sz >= TablesCost(fast, p) {
      AfterTables(fast, sz - TablesCost(fast, p), b, p, rest);
    }
  }

  lemma AfterQuant(fast: nat, sz: nat, buf: seq<byte>, p: Image, rest: seq<byte>)
    requires p.Ok() && |buf| >= MAX_SEGMENT
    ensures p.ncomp in {1, 3} && p.h <= 2 && p.v <= 2 && |p.quant| == 2 && |p.quant[0]| == 64 && |p.quant[1]| == 64
    ensures Parse(fast, At(p, true, false, false, sz), buf,
                  Headers.Sof(p).Bytes() + (Flatten(TableSegments(p.ncomp)) + (Headers.Sos(p.ncomp).Bytes() + rest)))
         == if sz < TablesCost(fast, p) then Failed(JDR_MEM1) else FromScan(fast, sz - TablesCost(fast, p), p, rest)
  {
    hide At, Parse, Headers.Sos, Headers.Sof, Prepare.Sof, MarkerSegment.Bytes, TableSegments, Flatten, FromScan, TablesCost;
    OkShape(p);
    SofBytes(p);
    SofMarker(p);
    var more := Flatten(TableSegments(p.ncomp)) + (Headers.Sos(p.ncomp).Bytes() + rest);
    var b := ParseLoaded(fast, At(p, true, false, false, sz), buf, Headers.Sof(p), more);
    SofApplied(fast, p, sz, b);
    AfterFrame(fast, sz, b, p, rest);
  }

  lemma SofMarker(p: Image)
    requires p.Ok()
    ensures p.ncomp <= 3 && p.h <= 2 && p.v <= 2 && Headers.Sof(p).marker == 0xC0
  {
  }

  lemma AfterSoi(fast: nat, sz: nat, buf: seq<byte>, p: Image, rest: seq<byte>)
    requires p.Ok() && |buf| >= MAX_SEGMENT
    ensures p.ncomp in {1, 3} && p.h <= 2 && p.v <= 2 && |p.quant| == 2 && |p.quant[0]| == 64 && |p.quant[1]| == 64
    ensures Parse(fast, At(p, false, false, false, sz), buf, Body(p) + rest)
         == if sz < QuantCost(p) + TablesCost(fast, p) then Failed(JDR_MEM1)
            else FromScan(fast, sz - QuantCost(p) - TablesCost(fast, p), p, rest)
  {
    hide At, Parse, Headers.Sos, Headers.Sof, MarkerSegment.Bytes, TableSegments, TableSegment, Flatten, FromScan, TablesCost;
    hide QuantSegments, ApplyAll, Body;
    OkShape(p);
    BodyShape(p, rest);
    var more := Headers.Sof(p).Bytes() + (Flatten(TableSegments(p.ncomp)) + (Headers.Sos(p.ncomp).Bytes() + rest));
    var b := ParseSkipped(fast, At(p, false, false, false, sz), buf, Flatten(QuantSegments(p.ncomp, p.quant)) + more);
    QuantApplied(fast, p, sz);
    SegmentsFit(QuantSegments(p.ncomp, p.quant), |buf|);
    b := ParseAll(fast, At(p, false, false, false, sz), b, QuantSegments(p.ncomp, p.quant), more);
    if sz >= QuantCost(p) {
      AfterQuant(fast, sz - QuantCost(p), b, p, rest);
    }
  }

  /** The same with a buffer that is too small. */
  lemma RefusedAfterSoi(fast: nat, sz: nat, buf: seq<byte>, p: Image, rest: seq<byte>)
    requires p.Ok() && 16 <= |buf| < MAX_SEGMENT
    ensures p.ncomp in {1, 3} && p.h <= 2 && p.v <= 2 && |p.quant| == 2 && |p.quant[0]| == 64 && |p.quant[1]| == 64
    ensures Parse(fast, At(p, false, false, false, sz), buf, Body(p) + rest)
         == Failed(if |buf| >= 65 && sz < QuantCost(p) + TableCost(fast, false) then JDR_MEM1 else JDR_MEM2)
  {
    hide At, Parse, Headers.Sos, Headers.Sof, MarkerSegment.Bytes, TableSegments, TableSegment, Flatten, TableCost;
    hide QuantSegments, ApplyAll, Body, Dqt;
    OkShape(p);
    BodyShape(p, rest);
    var more := Headers.Sof(p).Bytes() + (Flatten(TableSegments(p.ncomp)) + (Headers.Sos(p.ncomp).Bytes() + rest));
    var st := At(p, false, false, false, sz);
    var b := ParseSkipped(fast, st, buf, Flatten(QuantSegments(p.ncomp, p.quant)) + more);
    QuantSizes(p);
    if |buf| < 65 {
      var first, others := QuantFirst(p, more);
      ParseTooLong(fast, st, b, first, others);
    } else {
      QuantApplied(fast, p, sz);
      b := ParseAll(fast, st, b, QuantSegments(p.ncomp, p.quant), more);
      if sz >= QuantCost(p) {
        RefusedAfterQuant(fast, sz - QuantCost(p), b, p, rest);
      }
    }
  }

  lemma QuantSizes(p: Image)
    requires p.Ok()
    ensures |p.quant| == 2 && forall i :: 0 <= i < |QuantSegments(p.ncomp, p.quant)| ==> |QuantSegments(p.ncomp, p.quant)[i].payload| == 65
  {
  }

  lemma QuantFirst(p: Image, more: seq<byte>) returns (first: MarkerSegment, others: seq<byte>)
    requires p.Ok()
    ensures |p.quant| == 2 && Flatten(QuantSegments(p.ncomp, p.quant)) + more == first.Bytes() + others
    ensures first.marker == 0xDB && |first.payload| == 65
  {
    hide MarkerSegment.Bytes, Flatten;
    first := Dqt(0, p.quant[0]);
    var segs := if p.ncomp == 3 then [Dqt(1, p.quant[1])] else [];
    FlattenMore(first, segs);
    others := Flatten(segs) + more;
    Associate(first.Bytes(), Flatten(segs), more);
  }

  lemma RefusedAfterQuant(fast: nat, sz: nat, buf: seq<byte>, p: Image, rest: seq<byte>)
    requires p.Ok() && 65 <= |buf| < MAX_SEGMENT
    ensures p.ncomp in {1, 3} && p.h <= 2 && p.v <= 2 && |p.quant| == 2 && |p.quant[0]| == 64 && |p.quant[1]| == 64
    ensures Parse(fast, At(p, true, false, false, sz), buf,
                  Headers.Sof(p).Bytes() + (Flatten(TableSegments(p.ncomp)) + (Headers.Sos(p.ncomp).Bytes() + rest)))
         == Failed(if sz < TableCost(fast, false) then JDR_MEM1 else JDR_MEM2)
  {
    hide At, Parse, Headers.Sos, Headers.Sof, Prepare.Sof, MarkerSegment.Bytes, TableSegments, Flatten, TableCost;
    OkShape(p);
    SofBytes(p);
    SofMarker(p);
    var scan := Headers.Sos(p.ncomp).Bytes() + rest;
    var b := ParseLoaded(fast, At(p, true, false, false, sz), buf, Headers.Sof(p), Flatten(TableSegments(p.ncomp)) + scan);
    SofApplied(fast, p, sz, b);
    RefusedAfterFrame(fast, At(p, true, true, false, sz), b, p.ncomp, scan);
    AtPool(p, true, true, false, sz);
  }

  lemma RefusedAfterFrame(fast: nat, st: State, buf: seq<byte>, ncomp: nat, more: seq<byte>)
    requires st.Ok() && 65 <= |buf| < MAX_SEGMENT
    ensures Parse(fast, st, buf, Flatten(TableSegments(ncomp)) + more)
         == Failed(if st.szPool < TableCost(fast, false) then JDR_MEM1 else JDR_MEM2)
  {
    hide Parse, MarkerSegment.Bytes, Flatten, TableCost, HuffTables, QtTables, DcTable, AcTable, Table.Valid, SymbolsFit, WithTable;
    ClassTables(false);
    var dc, ac := Dht(DcTable(false), 0), Dht(AcTable(false), 0x10);
    var others := if ncomp == 3 then Tables(true) else [];
    TablesSplit(ncomp, more);
    DhtApplied(fast, st, DcTable(false), 0, false);
    var b := ParseLoaded(fast, st, buf, dc, ac.Bytes() + (Flatten(others) + more));
    if st.szPool >= TableCost(fast, false) {
      ParseTooLong(fast, WithTable(st, 0, false, DcTable(false), st.szPool - TableCost(fast, false)), b, ac, Flatten(others) + more);
    }
  }

  lemma TablesSplit(ncomp: nat, more: seq<byte>)
    ensures Flatten(TableSegments(ncomp)) + more
         == Dht(DcTable(false), 0).Bytes()
            + (Dht(AcTable(false), 0x10).Bytes() + (Flatten(if ncomp == 3 then Tables(true) else []) + more))
  {
    hide MarkerSegment.Bytes, Flatten, DcTable, AcTable, Dht;
    var dc, ac := Dht(DcTable(false), 0), Dht(AcTable(false), 0x10);
    var others := if ncomp == 3 then Tables(true) else [];
    assert TableSegments(ncomp) == [dc] + ([ac] + others);
    FlattenMore(dc, [ac] + others);
    FlattenMore(ac, others);
    Associate(dc.Bytes(), ac.Bytes() + Flatten(others), more);
    Associate(ac.Bytes(), Flatten(others), more);
  }

  lemma BodyShape(p: Image, rest: seq<byte>)
    requires p.ncomp <= 3 && p.h <= 2 && p.v <= 2 && |p.quant| == 2
    ensures Body(p) + rest
         == App0().Bytes() + (Flatten(QuantSegments(p.ncomp, p.quant))
            + (Headers.Sof(p).Bytes() + (Flatten(TableSegments(p.ncomp)) + (Headers.Sos(p.ncomp).Bytes() + rest))))
  {
    hide Flatten, QuantSegments, TableSegments, Headers.Sof, Headers.Sos, MarkerSegment.Bytes, App0;
    var a, q, f, t, s := App0().Bytes(), Flatten(QuantSegments(p.ncomp, p.quant)), Headers.Sof(p).Bytes(),
                         Flatten(TableSegments(p.ncomp)), Headers.Sos(p.ncomp).Bytes();
    Associate(a, q + (f + (t + s)), rest);
    Associate(q, f + (t + s), rest);
    Associate(f, t + s, rest);
    Associate(t, s, rest);
  }

  lemma ExpectedShape(fast: nat, szPool: nat, szBuf: nat, p: Image, rest: seq<byte>)
    requires p.Ok()
    ensures p.ncomp in {1, 3} && |p.quant| == 2 && |p.quant[0]| == 64 && |p.quant[1]| == 64
    ensures Expected(fast, szPool, szBuf, p, rest)
         == if szBuf < MAX_SEGMENT then
              Failed(if szPool < (szBuf + 3) / 4 * 4 || (szBuf >= 65 && szPool - (szBuf + 3) / 4 * 4 < QuantCost(p) + TableCost(fast, false))
                     then JDR_MEM1 else JDR_MEM2)
            else if szPool < TablesNeed(fast, szBuf, p) then Failed(JDR_MEM1)
            else FromScan(fast, szPool - TablesNeed(fast, szBuf, p), p, rest)
    ensures TablesNeed(fast, szBuf, p) == (szBuf + 3) / 4 * 4 + QuantCost(p) + TablesCost(fast, p)
  {
    hide At, TablesCost;
  }

  // ---------- the recommended pool ----------

  const SZ_BUF: nat := 512
  const WORK_BUF_SIZE: nat := 3100

  /**
   The recommended working buffer of 3100 bytes, with the default input buffer: enough for every image the
   encoder writes and the bit-serial build (4:2:0 takes 3096), but the shift-register build does not have room for
   4:2:0 (it takes 3480).
   */
  lemma RecommendedPool(fast: nat, p: Image)
    requires p.Ok() && fast <= 1
    ensures PoolNeed(fast, SZ_BUF, p) <= WORK_BUF_SIZE <==> fast == 0 || !(p.h == 2 && p.v == 2)
    ensures p.h == 2 && p.v == 2 ==> PoolNeed(0, SZ_BUF, p) == 3096 && PoolNeed(1, SZ_BUF, p) == 3480
  {
  }

  /** The table-driven build gets a larger buffer, which is always enough. */
  lemma TablePool(p: Image)
    requires p.Ok()
    ensures PoolNeed(2, SZ_BUF, p) <= 9624 < 65472
  {
  }
}
