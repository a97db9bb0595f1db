/**
 The two halves of the codec together: an image is encoded, its header parsed and its scan decoded, and the
 decoder ends with the quantised coefficients the encoder had, scaled by its own tables.
 */
module Codec {
  import opened Bits
  import opened Stuffing
  import opened Huffman
  import opened HuffmanSearch
  import opened Entropy
  import opened Scan
  import opened Zigzag
  import opened StandardTables
  import opened Encoder
  import opened Decoder
  import opened Prepare
  import opened JdPrepare
  import opened HeaderRoundTrip
  import Headers
  import McuOutput
  import Dct
  import Quantizer

  /** Sample blocks of one MCU, one row of MCUs, and an image. */
  type Mcu = seq<seq<int>>
  type McuRow = seq<Mcu>

  function Luma(subsampling: nat): nat {
    match subsampling
    case 0 => 1
    case 1 => 1
    case 2 => 2
    case _ => 4
  }

  function Components(subsampling: nat): nat {
    if subsampling == 0 then 1 else 3
  }

  lemma SamplingShape(subsampling: nat)
    requires subsampling <= 3
    ensures Sampling(subsampling).0 == Components(subsampling) && Sampling(subsampling).1 * Sampling(subsampling).2 == Luma(subsampling)
    ensures 1 <= Sampling(subsampling).1 <= 2 && 1 <= Sampling(subsampling).2 <= 2
  {
  }

  ghost predicate McuOk(mcu: Mcu, subsampling: nat) {
    |mcu| == |McuComps(Luma(subsampling), Components(subsampling))| && forall i :: 0 <= i < |mcu| ==> Dct.IsSamples(mcu[i])
  }

  ghost predicate RowOk(row: McuRow, subsampling: nat) {
    forall i :: 0 <= i < |row| ==> McuOk(row[i], subsampling)
  }

  /** Rows of MCUs that cover `width` pixels each. */
  ghost predicate RowsOk(rows: seq<McuRow>, subsampling: nat, perRow: nat) {
    forall i :: 0 <= i < |rows| ==> |rows[i]| == perRow && RowOk(rows[i], subsampling)
  }

  /** All sample blocks, in coding order. */
  function AllSamples(rows: seq<McuRow>): seq<seq<int>> {
    if |rows| == 0 then [] else AllSamples(rows[..|rows| - 1]) + Flat(rows[|rows| - 1])
  }

  lemma {:induction false} ScanCompsAdd(nby: nat, ncomp: nat, m: nat, n: nat)
    ensures ScanComps(nby, ncomp, m + n) == ScanComps(nby, ncomp, m) + ScanComps(nby, ncomp, n)
  {
    hide McuComps;
    if m == 0 {
      assert [] + ScanComps(nby, ncomp, n) == ScanComps(nby, ncomp, n);
    } else {
      ScanCompsAdd(nby, ncomp, m - 1, n);
      Associate(McuComps(nby, ncomp), ScanComps(nby, ncomp, m - 1), ScanComps(nby, ncomp, n));
    }
  }

  /** How many MCUs the rows before row `i` hold. */
  function Before(i: nat, perRow: nat): nat {
    i * perRow
  }

  lemma BeforeNext(i: nat, perRow: nat)
    ensures Before(0, perRow) == 0 && Before(i + 1, perRow) == Before(i, perRow) + perRow
  {
    MulDistribute(i, 1, perRow);
  }

  /** The rows of an image, coded in order. */
  method EncodeRows(enc: JpegEncoder, rows: seq<McuRow>, subsampling: nat, perRow: nat)
    requires enc.Valid() && enc.ScanSoFar() && enc.SamplingOk() && subsampling <= 3
    requires enc.LumaBlocks() == Luma(subsampling) && enc.numComponents == Components(subsampling)
    requires RowsOk(rows, subsampling, perRow)
    modifies enc`sink, enc`pOutBuf, enc`outBufLeft, enc.outBuf, enc`bitBuffer, enc`bitsIn, enc`Put, enc`lastDcVal, enc`Units
    modifies enc.sampleArray, enc.coefficientArray
    ensures enc.Valid() && enc.ScanSoFar() && enc.Header == old(enc.Header)
    ensures UnitsFrom(old(enc.Units), enc.Units, ScanComps(Luma(subsampling), Components(subsampling), Before(|rows|, perRow)),
                      AllSamples(rows), enc.quantizationTables)
  {
    hide JpegEncoder.Valid, JpegEncoder.ScanSoFar, JpegEncoder.LumaBlocks, UnitsFrom, ScanComps, McuComps, Before, Dct.IsSamples, Flat;
    var nby, ncomp := Luma(subsampling), Components(subsampling);
    BeforeNext(0, perRow);
    NothingCoded(enc.Units, nby, ncomp, enc.quantizationTables);
    FlatNone();
    for i := 0 to |rows|
      invariant enc.Valid() && enc.ScanSoFar() && enc.Header == old(enc.Header)
      invariant UnitsFrom(old(enc.Units), enc.Units, ScanComps(nby, ncomp, Before(i, perRow)), AllSamples(rows[..i]), enc.quantizationTables)
    {
      ghost var before := enc.Units;
      RowSamples(enc, rows[i], subsampling);
      enc.ProcessMcuRow(rows[i]);
      assert rows[..i + 1][..i] == rows[..i];
      BeforeNext(i, perRow);
      ScanCompsAdd(nby, ncomp, Before(i, perRow), perRow);
      MoreCoded(old(enc.Units), before, enc.Units, ScanComps(nby, ncomp, Before(i, perRow)), ScanComps(nby, ncomp, perRow),
                AllSamples(rows[..i]), Flat(rows[i]), enc.quantizationTables);
    }
    assert rows[..|rows|] == rows;
  }

  lemma FlatNone()
    ensures Flat([]) == []
  {
  }

  lemma RowSamples(enc: JpegEncoder, row: McuRow, subsampling: nat)
    requires RowOk(row, subsampling) && enc.LumaBlocks() == Luma(subsampling) && enc.numComponents == Components(subsampling)
    ensures forall i :: 0 <= i < |row| ==> enc.McuSamples(row[i])
  {
    hide McuComps, Dct.IsSamples;
    forall i | 0 <= i < |row| ensures enc.McuSamples(row[i]) {
      assert McuOk(row[i], subsampling);
    }
  }

  /** Everything an encoder writes for an image. */
  method EncodeImage(width: nat, height: nat, subsampling: nat, quality: int, rows: seq<McuRow>)
    returns (stream: seq<byte>, ghost us: seq<Unit>)
    requires width >= 1 && height >= 1 && subsampling <= 3 && 1 <= quality <= 100
    requires |rows| == Mcus(height, 8 * Sampling(subsampling).2)
    requires RowsOk(rows, subsampling, Mcus(width, 8 * Sampling(subsampling).1))
    ensures ImageFor(width, height, subsampling, quality).Ok() && CodersOk(StandardCoders()) && Scan.Components(us) && UnitsOk(us)
    ensures Headers.Header(ImageFor(width, height, subsampling, quality)) <= stream
    ensures |stream| >= 2 && stream[|stream| - 2..] == [0xFF, 0xD9]
    ensures stream == Headers.Header(ImageFor(width, height, subsampling, quality)) + ScanBytes(ScanBits(StandardCoders(), us, [0, 0, 0]))
    ensures UnitsFrom([], us, ScanComps(Luma(subsampling), Components(subsampling), Before(|rows|, Mcus(width, 8 * Sampling(subsampling).1))),
                      AllSamples(rows), Quantizer.TablesFor(quality))
  {
    hide JpegEncoder.Valid, JpegEncoder.ScanSoFar, JpegEncoder.StaticsOk, UnitsFrom, ScanComps, RowsOk, ScanBytes, Headers.Header, ScanBits;
    hide Headers.Image.Ok, Quantizer.TablesFor, StandardCoders, CodersOk, AllSamples, Mcus, Before;
    var enc := new JpegEncoder();
    enc.JpgOpen(width, height, subsampling, quality);
    SamplingShape(subsampling);
    EncodeRows(enc, rows, subsampling, Mcus(width, 8 * Sampling(subsampling).1));
    us := enc.Units;
    UnitsAreOk(enc);
    enc.FinishImage();
    stream := enc.sink;
    EndsWithEoi(ScanBits(StandardCoders(), us, [0, 0, 0]));
    assert [] + Headers.Header(ImageFor(width, height, subsampling, quality)) == Headers.Header(ImageFor(width, height, subsampling, quality));
  }

  lemma EndsWithEoi(bits: seq<bool>)
    ensures var s := ScanBytes(bits); |s| >= 2 && s[|s| - 2..] == [0xFF, 0xD9]
  {
  }

  lemma UnitsAreOk(enc: JpegEncoder)
    requires enc.ScanSoFar()
    ensures UnitsOk(enc.Units)
  {
  }

  // ---------- decoding what was encoded ----------

  /** Nothing of the scan is in the registers, so the reader's invariant holds. */
  lemma ReadyIsValid(jd: Jdec, rest: seq<byte>)
    requires jd.FAST <= 2 && Ready(jd, rest)
    ensures jd.Valid() && jd.Data == ByteBits(Unstuff(rest).raw) && jd.End == Unstuff(rest).ending
  {
    hide Unstuff, ByteBits;
    MaskZero(0);
    NoBits();
    assert [] + jd.Data == jd.Data;
  }

  /** A table as built from a valid description is ready for its build. */
  lemma BuiltIsOk(tb: CodeTable, ac: bool, fast: nat)
    requires BuiltTable(tb, ac, fast) && tb.Spec().Valid() && |tb.data| <= 256
    ensures tb.Ok() && SymbolsFit(ac, tb.data) && (fast == 2 ==> tb.LutOk(ac))
  {
    hide Canonical, Total, SymbolsFit, KraftSum, LutEntry, HuffDecode, BitsOf;
    forall k | 0 <= k < |tb.code| ensures tb.code[k] == Canonical(tb.bits)[k].value {
      CodesAgree(tb.bits, k);
    }
  }

  lemma StandardTableOk(chroma: bool)
    ensures var dc, ac := DcTable(chroma), AcTable(chroma);
            dc.Valid() && ac.Valid() && |dc.vals| <= 256 && |ac.vals| <= 256
  {
    hide CoefficientSymbols, KraftSum, Total;
    DcTableOk(chroma);
    AcTableOk(chroma);
  }

  lemma UnloadedOk()
    ensures NoCodes().Valid() && |NoCodes().vals| <= 256
  {
    hide KraftSum, Total;
    UnloadedTotal(16);
    UnloadedKraft(16);
  }

  lemma UnloadedKraft(l: nat)
    requires l <= 16
    ensures KraftSum(NoCodes().counts, l) == 0
  {
    if l > 0 {
      UnloadedKraft(l - 1);
    }
  }

  /** What the header gave the decoder: tables for every component, and the encoder's code for the luma ones. */
  ghost predicate Equipped(jd: Jdec, p: Headers.Image)
    reads jd`tables, jd`qttbl, jd`qtid
  {
    && p.ncomp in {1, 3} && |p.quant| == 2 && |p.quant[0]| == 64 && |p.quant[1]| == 64
    && jd.QuantOk() && Dequantizes(jd, p) && jd.TablesOk() && CodesAs(jd, p.ncomp)
  }

  ghost predicate Dequantizes(jd: Jdec, p: Headers.Image)
    requires jd.QuantOk() && |p.quant| == 2 && |p.quant[0]| == 64 && |p.quant[1]| == 64
    reads jd`qttbl, jd`qtid
  {
    && jd.qttbl[jd.qtid[0]] == Dequantizer(p.quant[0])
    && (p.ncomp == 3 ==> jd.qttbl[jd.qtid[1]] == jd.qttbl[jd.qtid[2]] == Dequantizer(p.quant[1]))
  }

  ghost predicate CodesAs(jd: Jdec, ncomp: nat)
    requires jd.TablesOk()
    reads jd`tables
  {
    jd.Coders()[0] == StandardCoders()[0] && (ncomp == 3 ==> jd.Coders() == StandardCoders())
  }

  lemma EquippedAt(jd: Jdec, p: Headers.Image, sz: nat)
    requires jd.FAST <= 2 && Parsing(jd) && p.Ok() && StateOf(jd) == At(p, true, true, true, sz)
    requires jd.workbuf.Length == 64 && jd.workbuf as object != jd.inbuf
    ensures Equipped(jd, p)
  {
    hide Table.Valid, CodeTable.Ok, CodeTable.LutOk, CodeTable.Spec, DcTable, AcTable, NoCodes, Dequantizer, BuiltTable, SymbolsFit;
    TablesAt(jd, p, sz);
    hide JdPrepare.Built, Parsing;
    assert jd.Coders()[0] == StandardCoders()[0];
    if p.ncomp == 3 {
      assert jd.Coders()[1] == StandardCoders()[1];
    }
  }

  lemma TablesAt(jd: Jdec, p: Headers.Image, sz: nat)
    requires jd.FAST <= 2 && Parsing(jd) && p.Ok() && StateOf(jd) == At(p, true, true, true, sz)
    ensures jd.TablesOk()
    ensures jd.tables[0][0].Spec() == DcTable(false) && jd.tables[0][1].Spec() == AcTable(false)
    ensures p.ncomp == 3 ==> jd.tables[1][0].Spec() == DcTable(true) && jd.tables[1][1].Spec() == AcTable(true)
  {
    hide Table.Valid, CodeTable.Ok, CodeTable.LutOk, CodeTable.Spec, DcTable, AcTable, NoCodes, Dequantizer, BuiltTable, SymbolsFit;
    StandardTableOk(false);
    StandardTableOk(true);
    UnloadedOk();
    forall id: nat, cls: nat | id < 2 && cls < 2
      ensures jd.tables[id][cls].Ok() && SymbolsFit(cls == 1, jd.tables[id][cls].data)
      ensures jd.FAST == 2 ==> jd.tables[id][cls].LutOk(cls == 1)
    {
      SpecAt(jd.tables, id, cls);
      SpecData(jd.tables[id][cls]);
      BuiltIsOk(jd.tables[id][cls], cls == 1, jd.FAST);
    }
    SpecAt(jd.tables, 0, 0);
    SpecAt(jd.tables, 0, 1);
    SpecAt(jd.tables, 1, 0);
    SpecAt(jd.tables, 1, 1);
  }

  lemma SpecAt(tables: seq<seq<CodeTable>>, id: nat, cls: nat)
    requires Shaped(tables) && id < 2 && cls < 2
    ensures Specs(tables)[id][cls] == tables[id][cls].Spec()
  {
    hide CodeTable.Spec;
  }

  lemma SpecData(tb: CodeTable)
    ensures tb.Spec().vals == tb.data
  {
  }

  /** Reading depends only on the coders of the components read. */
  lemma {:induction false} SameLuma(a: seq<Coder>, b: seq<Coder>, comps: seq<nat>, bits: seq<bool>, pred: seq<int>)
    requires CodersOk(a) && CodersOk(b) && |pred| == 3 && a[0] == b[0] && forall i :: 0 <= i < |comps| ==> comps[i] == 0
    ensures ReadScan(a, comps, bits, pred) == ReadScan(b, comps, bits, pred)
    decreases |comps|
  {
    hide ReadBlock, KraftSum, Total;
    if |comps| > 0 {
      var r := ReadBlock(CoderOf(a, comps[0]), bits, pred[comps[0]]);
      if r.Got? {
        SameLuma(a, b, comps[1..], r.rest, pred[comps[0] := Int16(r.value[0])]);
      }
    }
  }

  lemma {:induction false} GreyComps(nby: nat, n: nat)
    ensures forall i :: 0 <= i < |ScanComps(nby, 1, n)| ==> ScanComps(nby, 1, n)[i] == 0
  {
    if n > 0 {
      GreyComps(nby, n - 1);
    }
  }

  lemma UnitsComps(us: seq<Unit>, comps: seq<nat>, samples: seq<seq<int>>, q: seq<seq<int>>)
    requires UnitsFrom([], us, comps, samples, q)
    ensures Comps(us) == comps
  {
    hide *;
    UnitsLength(us, comps, samples, q);
    forall i | 0 <= i < |comps| ensures Comps(us)[i] == comps[i] {
      UnitComp(us, comps, samples, q, i);
    }
  }

  lemma UnitsLength(us: seq<Unit>, comps: seq<nat>, samples: seq<seq<int>>, q: seq<seq<int>>)
    requires UnitsFrom([], us, comps, samples, q)
    ensures |us| == |comps|
  {
    hide UnitFrom;
  }

  lemma UnitComp(us: seq<Unit>, comps: seq<nat>, samples: seq<seq<int>>, q: seq<seq<int>>, i: nat)
    requires UnitsFrom([], us, comps, samples, q) && i < |comps|
    ensures i < |us| && us[i].comp == comps[i]
  {
    hide CodedFrom;
    assert UnitFrom(us, 0 + i, comps[i], samples[i], q);
  }

  /** The scan of an equipped decoder reads back the units that were written. */
  lemma ScanReads(jd: Jdec, p: Headers.Image, us: seq<Unit>, nby: nat, n: nat, after: seq<byte>)
    requires Equipped(jd, p) && UnitsOk(us) && Comps(us) == ScanComps(nby, p.ncomp, n)
    ensures CodersOk(StandardCoders()) && Scan.Components(us)
    ensures var bytes := ScanBytes(ScanBits(StandardCoders(), us, [0, 0, 0])) + after;
            && Unstuff(bytes).ending == Marker(0xD9)
            && ReadScan(jd.Coders(), ScanComps(nby, p.ncomp, n), ByteBits(Unstuff(bytes).raw), [0, 0, 0])
               == Got(us, Ones(Padding(|ScanBits(StandardCoders(), us, [0, 0, 0])|)))
  {
    hide Coder.Complete, Coder.Valid, StandardCoders, ReadScan, ScanBits, ScanBytes, Unstuff, ByteBits, Jdec.TablesOk, ScanComps, Comps, UnitsOk;
    StandardComplete();
    StandardValid();
    ComponentsOk(us);
    BytesRoundTrip(StandardCoders(), us, after);
    if p.ncomp == 1 {
      GreyComps(nby, n);
      var bytes := ScanBytes(ScanBits(StandardCoders(), us, [0, 0, 0])) + after;
      SameLuma(StandardCoders(), jd.Coders(), ScanComps(nby, 1, n), ByteBits(Unstuff(bytes).raw), [0, 0, 0]);
    }
  }

  lemma StandardValid()
    ensures CodersOk(StandardCoders())
  {
    hide Table.Valid;
    StandardTableOk(false);
    StandardTableOk(true);
  }

  /** The decoded blocks are the quantised coefficients times the decoder's tables. */
  ghost predicate Recovered(blocks: seq<seq<int>>, us: seq<Unit>, quant: seq<seq<int>>) {
    && |blocks| == |us| && |quant| == 2 && |quant[0]| == 64 && |quant[1]| == 64
    && forall i :: 0 <= i < |us| ==> Dequantized(blocks[i], Dequantizer(quant[if us[i].comp > 0 then 1 else 0]), us[i].blk)
  }

  lemma LoadedIsRecovered(jd: Jdec, p: Headers.Image, blocks: seq<seq<int>>, us: seq<Unit>, nby: nat, n: nat)
    requires Equipped(jd, p) && jd.Loaded(blocks, us) && Comps(us) == ScanComps(nby, p.ncomp, n)
    ensures Recovered(blocks, us, p.quant)
  {
    hide Dequantized, Dequantizer, Jdec.TablesOk, StandardCoders, Jdec.Coders;
    if p.ncomp == 1 {
      GreyComps(nby, n);
    }
    forall i | 0 <= i < |us| ensures Dequantized(blocks[i], Dequantizer(p.quant[if us[i].comp > 0 then 1 else 0]), us[i].blk) {
      assert Comps(us)[i] == us[i].comp;
    }
  }

  /** The bytes of an encoded image with the given units. */
  ghost function Encoded(p: Headers.Image, us: seq<Unit>): seq<byte>
    requires p.Ok() && Scan.Components(us)
  {
    StandardValid();
    Headers.Header(p) + ScanBytes(ScanBits(StandardCoders(), us, [0, 0, 0]))
  }

  /** The units are those of an image of `n` MCUs. */
  ghost predicate UnitsOf(us: seq<Unit>, p: Headers.Image, n: nat) {
    Scan.Components(us) && UnitsOk(us) && Comps(us) == ScanComps(p.h * p.v, p.ncomp, n)
  }

  /** The bytes after the header: the scan, and whatever follows it. */
  ghost function ScanOf(us: seq<Unit>, after: seq<byte>): seq<byte>
    requires Scan.Components(us)
  {
    StandardValid();
    ScanBytes(ScanBits(StandardCoders(), us, [0, 0, 0])) + after
  }

  /** The size of an image in MCUs. */
  function McuCount(p: Headers.Image): nat
    requires p.h > 0 && p.v > 0
  {
    Mcus(p.width, 8 * p.h) * Mcus(p.height, 8 * p.v)
  }

  /** What `jd_prepare` reports of an encoded image of less than 65536 pixels each way: 0, or which memory is too small. */
  function HeaderFault(fast: nat, szPool: nat, szBuf: nat, p: Headers.Image): int {
    if szBuf < MAX_SEGMENT then RefusedWith(fast, szPool, szBuf, p)
    else if szPool < PoolNeed(fast, szBuf, p) then JDR_MEM1
    else 0
  }

  lemma FaultIsMemory(fast: nat, szPool: nat, szBuf: nat, p: Headers.Image)
    ensures HeaderFault(fast, szPool, szBuf, p) in {0, JDR_MEM1, JDR_MEM2}
    ensures HeaderFault(fast, szPool, szBuf, p) == 0 <==> szBuf >= MAX_SEGMENT && szPool >= PoolNeed(fast, szBuf, p)
  {
    hide RefusedWith, PoolNeed;
    RefusalIsMemory(fast, szPool, szBuf, p);
  }

  lemma HeaderRead(fast: nat, szPool: nat, buf: seq<byte>, p: Headers.Image, us: seq<Unit>, after: seq<byte>)
    requires p.Ok() && p.width < 65536 && p.height < 65536 && Scan.Components(us) && |buf| >= 16
    ensures p.ncomp in {1, 3} && |p.quant| == 2 && |p.quant[0]| == 64 && |p.quant[1]| == 64
    ensures PrepareImage(fast, szPool, buf, Encoded(p, us) + after)
         == if HeaderFault(fast, szPool, |buf|, p) != 0 then Failed(HeaderFault(fast, szPool, |buf|, p))
            else Done(Prepared(At(p, true, true, true, szPool - PoolNeed(fast, |buf|, p)), ScanOf(us, after)))
    ensures SkipsStayInside(fast, szPool, buf, Encoded(p, us) + after)
  {
    hide PrepareImage, Headers.Header, ScanBytes, ScanBits, StandardCoders, At, TablesCost, ScanCost, RefusedWith, SkipsStayInside;
    RefusalIsMemory(fast, szPool, |buf|, p);
    OkShape(p);
    StandardValid();
    var scan := ScanBytes(ScanBits(StandardCoders(), us, [0, 0, 0]));
    Associate(Headers.Header(p), scan, after);
    HeaderRoundTrip.HeaderRoundTrip(fast, szPool, buf, p, scan + after);
    HeaderStaysInside(fast, szPool, buf, p, scan + after);
  }

  lemma FrameOf(jd: Jdec, p: Headers.Image, sz: nat)
    requires jd.FAST <= 2 && Parsing(jd) && p.Ok() && p.width < 65536 && p.height < 65536 && StateOf(jd) == At(p, true, true, true, sz)
    requires jd.workbuf.Length == 64 && jd.workbuf as object != jd.inbuf
    ensures jd.width == p.width && jd.height == p.height && jd.ncomp == p.ncomp && jd.msx == p.h && jd.msy == p.v && jd.nrst == 0
    ensures Equipped(jd, p)
  {
    hide Equipped, JdPrepare.Built, Dequantizer, DcTable, AcTable, NoCodes;
    EquippedAt(jd, p, sz);
  }

  /** The data still unread are those of the units. */
  ghost predicate ReadsBack(jd: Jdec, nby: nat, ncomp: nat, n: nat, us: seq<Unit>)
    reads jd`tables, jd`Data
  {
    && jd.TablesOk()
    && var r := ReadScan(jd.Coders(), ScanComps(nby, ncomp, n), jd.Data, [0, 0, 0]);
       r.Got? && r.value == us
  }

  lemma Reading(jd: Jdec, nby: nat, ncomp: nat, n: nat, us: seq<Unit>)
    requires jd.TablesOk()
    ensures var r := ReadScan(jd.Coders(), ScanComps(nby, ncomp, n), jd.Data, [0, 0, 0]);
            r.Got? && r.value == us ==> ReadsBack(jd, nby, ncomp, n, us)
  {
    hide Jdec.TablesOk, Jdec.Coders, ReadScan, ScanComps;
  }

  /** The data still unread are the scan of the units. */
  ghost predicate HoldsScan(jd: Jdec, us: seq<Unit>, after: seq<byte>)
    requires Scan.Components(us)
    reads jd`Data, jd`End
  {
    jd.Data == ByteBits(Unstuff(ScanOf(us, after)).raw) && jd.End == Unstuff(ScanOf(us, after)).ending
  }

  lemma ScanReadsBack(jd: Jdec, p: Headers.Image, us: seq<Unit>, nby: nat, n: nat, after: seq<byte>)
    requires nby == p.h * p.v && Scan.Components(us) && HoldsScan(jd, us, after) && UnitsOf(us, p, n) && Equipped(jd, p)
    ensures jd.TablesOk() && jd.QuantOk() && jd.Steady() && ReadsBack(jd, nby, p.ncomp, n, us)
  {
    hide *;
    EquippedShape(jd, p);
    HoldsShape(jd, us, after);
    UnitsOfShape(us, p, n);
    ScanOfShape(us, after);
    MarkerIsSteady(jd);
    Reading(jd, nby, p.ncomp, n, us);
    ScanReads(jd, p, us, nby, n, after);
  }

  lemma HoldsShape(jd: Jdec, us: seq<Unit>, after: seq<byte>)
    requires Scan.Components(us) && HoldsScan(jd, us, after)
    ensures jd.Data == ByteBits(Unstuff(ScanOf(us, after)).raw) && jd.End == Unstuff(ScanOf(us, after)).ending
  {
    hide ByteBits, Unstuff, ScanOf;
  }

  lemma EquippedShape(jd: Jdec, p: Headers.Image)
    requires Equipped(jd, p)
    ensures jd.TablesOk() && jd.QuantOk()
  {
    hide Jdec.TablesOk, Jdec.QuantOk, Jdec.Coders, StandardCoders, Dequantizer;
  }

  lemma UnitsOfShape(us: seq<Unit>, p: Headers.Image, n: nat)
    requires UnitsOf(us, p, n)
    ensures Scan.Components(us) && UnitsOk(us) && Comps(us) == ScanComps(p.h * p.v, p.ncomp, n)
  {
    hide Comps, ScanComps, UnitsOk;
  }

  lemma ScanOfShape(us: seq<Unit>, after: seq<byte>)
    requires Scan.Components(us)
    ensures CodersOk(StandardCoders()) && ScanOf(us, after) == ScanBytes(ScanBits(StandardCoders(), us, [0, 0, 0])) + after
  {
    hide ScanBytes, ScanBits, StandardCoders, CodersOk;
    StandardValid();
  }

  lemma MarkerIsSteady(jd: Jdec)
    ensures jd.End.Marker? ==> jd.Steady()
  {
  }

  lemma BlocksRecovered(jd: Jdec, p: Headers.Image, blocks: seq<seq<int>>, us: seq<Unit>, n: nat)
    requires Equipped(jd, p) && jd.Loaded(blocks, us) && UnitsOf(us, p, n)
    ensures Recovered(blocks, us, p.quant)
  {
    hide Jdec.Loaded, Recovered, ScanComps, Comps, UnitsOk, Equipped, Jdec.QuantOk;
    LoadedIsRecovered(jd, p, blocks, us, p.h * p.v, n);
  }

  /**
   Any decoder build on any encoded image, whatever bytes follow it: with a large enough buffer and pool the header is
   accepted and the scan yields the units the encoder coded; with a smaller one `jd_prepare` reports it.
   */
  method DecodeImage(fast: nat, image: seq<byte>, szBuf: nat, szPool: nat, ghost p: Headers.Image, ghost sent: seq<Unit>, ghost after: seq<byte>)
    returns (rc: int, blocks: seq<seq<int>>)
    requires fast <= 2 && 16 <= szBuf < 0x1_0000_0000 && p.Ok() && p.width < 65536 && p.height < 65536
    requires UnitsOf(sent, p, McuCount(p)) && image == Encoded(p, sent) + after
    ensures rc == HeaderFault(fast, szPool, szBuf, p) && (rc == 0 ==> Recovered(blocks, sent, p.quant))
  {
    hide Parsing, Ready, Encoded, At, Headers.Header, Equipped, Recovered, PoolNeed, PrepareImage, StateOf, UnitsOf, Headers.Image.Ok;
    hide Jdec.Valid, Jdec.TablesOk, Jdec.QuantOk, Jdec.Coders, ReadScan, ScanComps, Mcus, Jdec.Loaded, StandardCoders, Unstuff, ScanBytes, ScanBits;
    hide ScanOf, ByteBits, Jdec.Steady;
    ImageShape(p, sent);
    blocks := [];
    var jd := new Jdec(fast, image, szBuf);
    HeaderRead(fast, szPool, jd.inbuf[..], p, sent, after);
    FaultIsMemory(fast, szPool, szBuf, p);
    rc := JdPrepare.JdPrepare(jd, szPool);
    if rc == 0 {
      FrameOf(jd, p, szPool - PoolNeed(fast, szBuf, p));
      ReadyIsValid(jd, ScanOf(sent, after));
      ScanReadsBack(jd, p, sent, p.h * p.v, McuCount(p), after);
      ghost var us;
      rc, blocks, us := jd.DecodeScan(jd.width, jd.height, jd.msx, jd.msy, jd.ncomp);
      BlocksRecovered(jd, p, blocks, sent, McuCount(p));
    }
  }

  lemma ImageShape(p: Headers.Image, us: seq<Unit>)
    requires p.Ok() && UnitsOf(us, p, McuCount(p))
    ensures p.h > 0 && p.v > 0 && Scan.Components(us)
    ensures p.ncomp in {1, 3} && |p.quant| == 2 && |p.quant[0]| == 64 && |p.quant[1]| == 64
  {
  }

  // ---------- what a coefficient is ----------

  /**
   The `z`-th coefficient coded, times its table entry, is within half an entry and 1 of the cosine sum of the
   samples at its row and column of frequencies.
   */
  lemma CodedIsCosine(u: Unit, samples: seq<int>, quant: seq<seq<int>>, z: nat)
    requires CodedFrom(u, samples, quant) && z < 64
    ensures |samples| == 64 && |quant| == 2 && Zig(z) < 64
    ensures var q := quant[if u.comp > 0 then 1 else 0];
            |q| == 64 && Dct.Near(2 * Dct.UNIT * (q[z] * u.blk[z]), 2 * Dct.CosineSum(samples, Zig(z) / 8, Zig(z) % 8), Dct.UNIT * (q[z] + 2))
  {
    hide Dct.Transformed, Quantizer.Quantize, Dct.CosineSum, Zig, Dct.IsSamples;
    SamplesLength(samples);
    var q := quant[if u.comp > 0 then 1 else 0];
    var t: seq<int> :| |t| == 64 && Dct.Transformed(samples, t) && Quantizer.QuantizedFrom(u.blk, t, q);
    Dct.TransformIsCosine(samples, t);
    var row, column := Zig(z) / 8, Zig(z) % 8;
    assert Dct.Near(Dct.UNIT * t[8 * row + column], Dct.CosineSum(samples, row, column), Dct.UNIT - 1);
    Quantizer.QuantizeNearest(t[Zig(z)], q[z]);
  }

  lemma SamplesLength(samples: seq<int>)
    requires Dct.IsSamples(samples)
    ensures |samples| == 64
  {
  }

  // ---------- no product overflows ----------

  /** A quantised value times its table entry is within half an entry of the transform, and stays small when scaled. */
  lemma SmallProduct(v: int, q: int, f: nat)
    requires -1024 <= v <= 1020 && 1 <= q <= 255 && f < 65536
    ensures -0x8000_0000 <= Quantizer.Quantize(v, q) * (q * f) <= 0x7FFF_FFFF
  {
    hide Quantizer.Quantize;
    Quantizer.QuantizeNearest(v, q);
    var c := Quantizer.Quantize(v, q);
    MulAssociate(c, q, f);
    ScaledBound(c * q, f);
  }

  lemma ScaledBound(p: int, f: nat)
    requires -1200 <= p <= 1200 && f < 65536
    ensures -0x8000_0000 <= p * f <= 0x7FFF_FFFF
  {
    MulMonotone(-1200, p, f);
    MulMonotone(p, 1200, f);
  }

  /** For a block coded from samples every dequantised product fits 32 bits. */
  lemma UnitProductsFit(u: Unit, samples: seq<int>, quant: seq<seq<int>>)
    requires CodedFrom(u, samples, quant)
    ensures |quant| == 2 && var q := quant[if u.comp > 0 then 1 else 0]; |q| == 64 && ProductsFit(u.blk, Dequantizer(q))
  {
    hide Dct.Transformed, Quantizer.Quantize, Dequantizer, Zig;
    var q := quant[if u.comp > 0 then 1 else 0];
    var t: seq<int> :| |t| == 64 && Dct.Transformed(samples, t) && Quantizer.QuantizedFrom(u.blk, t, q);
    Dct.TransformedInRange(samples, t);
    DequantizerEntries(q);
    forall z | 0 <= z < 64 ensures Zig(z) < 64 && -0x8000_0000 <= u.blk[z] * Dequantizer(q)[Zig(z)] <= 0x7FFF_FFFF {
      SmallProduct(t[Zig(z)], q[z], Ipsf(Zig(z)));
    }
  }

  /** The decoded blocks are the exact products, scaled down: no multiplication has overflowed. */
  ghost predicate Exactly(blocks: seq<seq<int>>, us: seq<Unit>, quant: seq<seq<int>>) {
    && Recovered(blocks, us, quant)
    && forall i :: 0 <= i < |us| ==> ExactBlock(blocks[i], Dequantizer(quant[if us[i].comp > 0 then 1 else 0]), us[i].blk)
  }

  ghost predicate ExactBlock(tmp: seq<int>, dqf: seq<int>, blk: Block) {
    && |tmp| == 64 && |dqf| == 64 && ProductsFit(blk, dqf)
    && forall z :: 0 <= z < 64 ==> Zig(z) < 64 && tmp[Zig(z)] == blk[z] * dqf[Zig(z)] / 256
  }

  lemma RecoveredExactly(blocks: seq<seq<int>>, us: seq<Unit>, comps: seq<nat>, samples: seq<seq<int>>, quant: seq<seq<int>>)
    requires Recovered(blocks, us, quant) && UnitsFrom([], us, comps, samples, quant)
    ensures Exactly(blocks, us, quant)
  {
    hide CodedFrom, ProductsFit, Dequantized, Dequantizer, Zig;
    forall i | 0 <= i < |us| ensures ExactBlock(blocks[i], Dequantizer(quant[if us[i].comp > 0 then 1 else 0]), us[i].blk) {
      assert UnitFrom(us, 0 + i, comps[i], samples[i], quant);
      UnitProductsFit(us[i], samples[i], quant);
      DequantizedExactly(blocks[i], Dequantizer(quant[if us[i].comp > 0 then 1 else 0]), us[i].blk);
    }
  }

  // ---------- the round trip ----------

  lemma ImageForShape(width: nat, height: nat, subsampling: nat, quality: int)
    requires width >= 1 && height >= 1 && subsampling <= 3 && 1 <= quality <= 100
    ensures var p := ImageFor(width, height, subsampling, quality);
            && p.Ok() && p.width == width && p.height == height && p.ncomp == Components(subsampling)
            && p.h == Sampling(subsampling).1 && p.v == Sampling(subsampling).2 && p.h * p.v == Luma(subsampling)
            && p.h > 0 && p.v > 0 && p.quant == Quantizer.TablesFor(quality)
  {
    hide Quantizer.ScaledEntry, Quantizer.Percentage, Quantizer.StandardTable;
  }

  lemma UnitsOfImage(us: seq<Unit>, p: Headers.Image, rows: nat, perRow: nat, nby: nat, samples: seq<seq<int>>)
    requires p.h > 0 && p.v > 0 && p.h * p.v == nby && rows == Mcus(p.height, 8 * p.v) && perRow == Mcus(p.width, 8 * p.h)
    requires Scan.Components(us) && UnitsOk(us) && UnitsFrom([], us, ScanComps(nby, p.ncomp, Before(rows, perRow)), samples, p.quant)
    ensures UnitsOf(us, p, McuCount(p))
  {
    hide ScanComps, UnitsFrom, Mcus, UnitsOk;
    UnitsComps(us, ScanComps(nby, p.ncomp, Before(rows, perRow)), samples, p.quant);
    assert Before(rows, perRow) == McuCount(p);
  }

  /**
   The codec round trip.  For every image size of 1..65535, subsampling, quality and sample content, every
   decoder build with any input buffer and pool: the encoder's own output decodes, if and only if the buffer
   holds the longest segment and the pool suffices, to blocks that are the quantised transforms of the encoder's samples, in
   order, each scaled by the encoder's quantiser table and the IDCT's factors.
   */
  method RoundTrip(width: nat, height: nat, subsampling: nat, quality: int, rows: seq<McuRow>, fast: nat, szBuf: nat, szPool: nat)
    returns (rc: int, blocks: seq<seq<int>>, ghost us: seq<Unit>)
    requires 1 <= width < 65536 && 1 <= height < 65536 && subsampling <= 3 && 1 <= quality <= 100
    requires |rows| == Mcus(height, 8 * Sampling(subsampling).2)
    requires RowsOk(rows, subsampling, Mcus(width, 8 * Sampling(subsampling).1))
    requires fast <= 2 && 16 <= szBuf < 0x1_0000_0000
    ensures ImageFor(width, height, subsampling, quality).Ok()
    ensures rc == 0 <==> szBuf >= MAX_SEGMENT && szPool >= PoolNeed(fast, szBuf, ImageFor(width, height, subsampling, quality))
    ensures rc != 0 ==> rc in {JDR_MEM1, JDR_MEM2}
    ensures rc == 0 ==> Exactly(blocks, us, Quantizer.TablesFor(quality))
    ensures rc == 0 ==> UnitsFrom([], us, ScanComps(Luma(subsampling), Components(subsampling),
                                                    Before(|rows|, Mcus(width, 8 * Sampling(subsampling).1))),
                                  AllSamples(rows), Quantizer.TablesFor(quality))
  {
    hide Headers.Image.Ok, CodersOk, UnitsOk, ScanBytes, ScanBits, Headers.Header, UnitsFrom, ScanComps, RowsOk, Recovered, Exactly, PoolNeed, Mcus;
    hide StandardCoders, Before, Sampling, Luma, AllSamples, UnitsOf, Quantizer.TablesFor, ImageFor;
    ImageForShape(width, height, subsampling, quality);
    var stream;
    stream, us := EncodeImage(width, height, subsampling, quality, rows);
    ghost var p := ImageFor(width, height, subsampling, quality);
    UnitsOfImage(us, p, |rows|, Mcus(width, 8 * Sampling(subsampling).1), Luma(subsampling), AllSamples(rows));
    assert stream == Encoded(p, us) + [];
    rc, blocks := DecodeImage(fast, stream, szBuf, szPool, p, us, []);
    FaultIsMemory(fast, szPool, szBuf, p);
    if rc == 0 {
      RecoveredExactly(blocks, us, ScanComps(Luma(subsampling), Components(subsampling), Before(|rows|, Mcus(width, 8 * Sampling(subsampling).1))),
                       AllSamples(rows), Quantizer.TablesFor(quality));
    }
  }

  /** The buffers the header parser allocates are the memory the pixel output works in. */
  lemma McuBuffers(p: Headers.Image, fast: nat, table: bool)
    requires p.Ok()
    ensures var g := McuOutput.Geometry(8 * p.h, 8 * p.v);
            && g.Ok() && g.Blocks() == p.h * p.v && g.WorkBytes() == Prepare.WorkBytes(p.h * p.v)
            && McuOutput.MemoryBytes(g, McuOutput.Build(fast >= 1, table)) == ScanCost(fast, p)
  {
  }
}
