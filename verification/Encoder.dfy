/**
 The entropy-coding half of `jpeg_encoder`: the output buffer, the bit packer, the coefficient coder and the
 end of the image.
 */
module Encoder {
  import opened Bits
  import opened Stuffing
  import opened BitBuffer
  import opened Huffman
  import opened Entropy
  import opened Scan
  import opened StandardTables
  import Headers
  import Dct
  import Quantizer

  const JPGE_OUT_BUF_SIZE: nat := 512
  const M_EOI: byte := 0xD9

  /** A code and size table of the encoder agrees with the canonical table `t`. */
  ghost predicate TableCodes(codes: seq<nat>, sizes: seq<nat>, t: Table) {
    && t.Valid() && |codes| == 256 && |sizes| == 256
    && forall s :: 0 <= s < 256 ==> Coded(codes[s], sizes[s], SymBits(t, s))
  }

  /** `compute_huffman_table` leaves the canonical code words of the table. */
  method HuffmanTable(bits: seq<byte>, val: seq<byte>) returns (codes: seq<nat>, sizes: seq<nat>)
    requires EncoderCounts(bits) && |val| == Total(bits[1..], 16) && Distinct(val)
    ensures TableCodes(codes, sizes, Table(bits[1..], val))
  {
    var c, s := new nat[256], new nat[256];
    ComputeHuffmanTable(c, s, bits, val);
    codes, sizes := c[..], s[..];
    assert val[..|val|] == val;
    CodesOfTable(codes, sizes, Table(bits[1..], val));
  }

  lemma CodesOfTable(codes: seq<nat>, sizes: seq<nat>, t: Table)
    requires t.Valid() && |codes| == 256 && |sizes| == 256 && Distinct(t.vals)
    requires forall k :: 0 <= k < |t.vals| ==>
               codes[t.vals[k]] == Canonical(t.counts)[k].value && sizes[t.vals[k]] == Canonical(t.counts)[k].len
    requires forall s: byte :: s !in t.vals ==> codes[s] == 0 && sizes[s] == 0
    ensures TableCodes(codes, sizes, t)
  {
    hide Canonical, Pow2, BitsOf, IndexOf;
    Pow2Zero();
    NoBits();
    forall s: byte ensures Coded(codes[s], sizes[s], SymBits(t, s)) {
      if s in t.vals {
        CanonicalFits(t.counts, IndexOf(t.vals, s));
      }
    }
  }

  ghost predicate Coded(code: nat, size: nat, word: seq<bool>) {
    size <= 16 && code < Pow2(size) && BitsOf(code, size) == word
  }

  class JpegEncoder {
    // The code tables: DC luma, DC chroma, AC luma, AC chroma (static in the source, written once).
    var huffCodes: seq<seq<nat>>
    var huffCodeSizes: seq<seq<nat>>
    // The output buffer and the bytes already handed to the stream.
    const outBuf: array<byte>
    var pOutBuf: nat
    var outBufLeft: nat
    var sink: seq<byte>
    // The bit packer.
    var bitBuffer: nat
    var bitsIn: nat
    var lastDcVal: seq<int>
    const sampleArray: array<int>
    const coefficientArray: array<int>
    var quantizationTables: seq<seq<int>>
    // Components, and the sampling factors of the first one.
    var numComponents: nat
    var compHSamp: nat
    var compVSamp: nat
    var imageX: nat
    var imageY: nat
    // What the static tables were last set up for.
    var lastQuality: int
    var huffInitialized: bool
    // What has been written: the bytes before the scan, and every bit put since.
    ghost var Header: seq<byte>
    ghost var Put: seq<bool>
    ghost var Coders: seq<Coder>
    ghost var Units: seq<Unit>

    ghost predicate BufferOk()
      reads `pOutBuf, `outBufLeft
    {
      outBuf.Length == JPGE_OUT_BUF_SIZE && pOutBuf + outBufLeft == JPGE_OUT_BUF_SIZE && outBufLeft > 0
    }

    /** Every byte written so far, in the stream or still in the buffer. */
    ghost function Output(): seq<byte>
      requires BufferOk()
      reads `sink, `pOutBuf, `outBufLeft, outBuf
    {
      sink + outBuf[..pOutBuf]
    }

    ghost predicate TablesOk()
      reads `huffCodes, `huffCodeSizes, `Coders, `lastDcVal
    {
      && |huffCodes| == 4 && |huffCodeSizes| == 4 && |Coders| == 2 && |lastDcVal| == 3
      && (forall c :: 0 <= c < 2 ==> TableCodes(huffCodes[c], huffCodeSizes[c], Coders[c].dc))
      && (forall c :: 0 <= c < 2 ==> TableCodes(huffCodes[2 + c], huffCodeSizes[2 + c], Coders[c].ac))
    }

    ghost predicate ArraysOk() {
      && sampleArray.Length == 64 && coefficientArray.Length == 64 && sampleArray != coefficientArray
      && outBuf as object != coefficientArray && outBuf as object != sampleArray
    }

    /** The bits put are those of the blocks coded so far, and the predictors are theirs. */
    ghost predicate ScanSoFar()
      reads this
    {
      && CodersOk(Coders) && UnitsOk(Units) && Components(Units)
      && Put == ScanBits(Coders, Units, [0, 0, 0])
      && lastDcVal == Preds(Units, [0, 0, 0]) && PredOk(lastDcVal)
      && |quantizationTables| == 2 && Quantizer.IsQuantTable(quantizationTables[0]) && Quantizer.IsQuantTable(quantizationTables[1])
    }

    /** Fewer than eight bits are pending; the bytes out are the header and the stuffed complete octets. */
    ghost predicate Valid()
      reads `sink, `pOutBuf, `outBufLeft, outBuf, `bitBuffer, `bitsIn, `Put, `Header
      reads `huffCodes, `huffCodeSizes, `Coders, `lastDcVal
    {
      && BufferOk() && TablesOk() && ArraysOk()
      && bitsIn == |Rest(Put)| && Holds(bitBuffer, Rest(Put))
      && Output() == Header + Stuff(Pack(Put))
    }

    constructor ()
      ensures ArraysOk() && outBuf.Length == JPGE_OUT_BUF_SIZE && StaticsOk() && sink == []
      ensures fresh(outBuf) && fresh(sampleArray) && fresh(coefficientArray)
    {
      outBuf := new byte[JPGE_OUT_BUF_SIZE];
      sampleArray := new int[64];
      coefficientArray := new int[64];
      sink, huffCodes, huffCodeSizes, quantizationTables := [], [], [], [];
      lastQuality, huffInitialized := 0, false;
    }

    /** The static tables are those of the last quality, and the standard codes once initialised. */
    ghost predicate StaticsOk()
      reads `lastQuality, `quantizationTables, `huffInitialized, `huffCodes, `huffCodeSizes
    {
      && (lastQuality != 0 ==> 1 <= lastQuality <= 100 && quantizationTables == Quantizer.TablesFor(lastQuality))
      && (huffInitialized ==> StandardCodes(huffCodes, huffCodeSizes))
    }

    method FlushOutputBuffer()
      requires outBuf.Length == JPGE_OUT_BUF_SIZE && pOutBuf + outBufLeft == JPGE_OUT_BUF_SIZE
      modifies `sink, `pOutBuf, `outBufLeft
      ensures BufferOk() && pOutBuf == 0 && sink == old(sink + outBuf[..pOutBuf])
      ensures Output() == sink
    {
      if outBufLeft != JPGE_OUT_BUF_SIZE {
        sink := sink + outBuf[..JPGE_OUT_BUF_SIZE - outBufLeft];
      }
      pOutBuf := 0;
      outBufLeft := JPGE_OUT_BUF_SIZE;
    }

    method EmitByte(i: byte)
      requires BufferOk()
      modifies `sink, `pOutBuf, `outBufLeft, outBuf
      ensures BufferOk() && Output() == old(Output()) + [i]
    {
      outBuf[pOutBuf] := i;
      pOutBuf := pOutBuf + 1;
      outBufLeft := outBufLeft - 1;
      assert sink + outBuf[..pOutBuf] == old(Output()) + [i];
      if outBufLeft == 0 {
        FlushOutputBuffer();
      }
    }

    method EmitMarker(marker: byte)
      requires BufferOk()
      modifies `sink, `pOutBuf, `outBufLeft, outBuf
      ensures BufferOk() && Output() == old(Output()) + [0xFF, marker]
    {
      EmitByte(0xFF);
      EmitByte(marker);
    }

    method EmitWord(i: nat)
      requires BufferOk()
      modifies `sink, `pOutBuf, `outBufLeft, outBuf
      ensures BufferOk() && Output() == old(Output()) + Headers.Word(i)
    {
      EmitByte(i / 256 % 256);
      EmitByte(i % 256);
    }

    /** A run of `emit_byte` calls. */
    method EmitBytes(bs: seq<byte>)
      requires BufferOk()
      modifies `sink, `pOutBuf, `outBufLeft, outBuf
      ensures BufferOk() && Output() == old(Output()) + bs
    {
      hide Output;
      for i := 0 to |bs|
        invariant BufferOk() && Output() == old(Output()) + bs[..i]
      {
        EmitByte(bs[i]);
        assert bs[..i + 1] == bs[..i] + [bs[i]];
      }
      assert bs[..|bs|] == bs;
    }

    /** A marker segment, piece by piece. */
    ghost predicate Emitting(before: seq<byte>, s: Headers.MarkerSegment, n: nat)
      requires BufferOk()
      reads `sink, `pOutBuf, `outBufLeft, outBuf
    {
      n <= |s.payload| && Output() == before + ([0xFF, s.marker] + Headers.Word(|s.payload| + 2) + s.payload[..n])
    }

    method StartSegment(ghost s: Headers.MarkerSegment, marker: byte, length: nat)
      requires BufferOk() && s.marker == marker && |s.payload| + 2 == length
      modifies `sink, `pOutBuf, `outBufLeft, outBuf
      ensures BufferOk() && Emitting(old(Output()), s, 0)
    {
      hide Output;
      ghost var before := Output();
      EmitMarker(marker);
      EmitWord(length);
      Associate(before, [0xFF, marker], Headers.Word(length));
      assert [0xFF, marker] + Headers.Word(length) + [] == [0xFF, marker] + Headers.Word(length);
    }

    method ContinueSegment(ghost before: seq<byte>, ghost s: Headers.MarkerSegment, ghost n: nat, bs: seq<byte>)
      requires BufferOk() && Emitting(before, s, n) && n + |bs| <= |s.payload| && bs == s.payload[n..n + |bs|]
      modifies `sink, `pOutBuf, `outBufLeft, outBuf
      ensures BufferOk() && Emitting(before, s, n + |bs|)
    {
      hide Output;
      ghost var head := [0xFF, s.marker] + Headers.Word(|s.payload| + 2);
      EmitBytes(bs);
      assert s.payload[..n] + bs == s.payload[..n + |bs|];
      Associate(head, s.payload[..n], bs);
      Associate(before, head + s.payload[..n], bs);
    }

    lemma SegmentDone(before: seq<byte>, s: Headers.MarkerSegment)
      requires BufferOk() && Emitting(before, s, |s.payload|)
      ensures Output() == before + s.Bytes()
    {
      assert s.payload[..|s.payload|] == s.payload;
    }

    method EmitJfifApp0()
      requires BufferOk()
      modifies `sink, `pOutBuf, `outBufLeft, outBuf
      ensures BufferOk() && Output() == old(Output()) + Headers.App0().Bytes()
    {
      hide Output, Emitting;
      ghost var before, s := Output(), Headers.App0();
      StartSegment(s, Headers.M_APP0, 2 + 4 + 1 + 2 + 1 + 2 + 2 + 1 + 1);
      ContinueSegment(before, s, 0, [0x4A, 0x46, 0x49, 0x46, 0, 1, 1, 0, 0, 1, 0, 1, 0, 0]);
      SegmentDone(before, s);
    }

    method EmitDqtTable(i: nat)
      requires BufferOk() && |quantizationTables| == 2 && i < 2 && |quantizationTables[i]| == 64
      modifies `sink, `pOutBuf, `outBufLeft, outBuf
      ensures BufferOk() && Output() == old(Output()) + Headers.Dqt(i, quantizationTables[i]).Bytes()
    {
      hide Output, Emitting;
      ghost var before, s := Output(), Headers.Dqt(i, quantizationTables[i]);
      StartSegment(s, Headers.M_DQT, 64 + 1 + 2);
      ContinueSegment(before, s, 0, [i]);
      for j := 0 to 64
        invariant BufferOk() && Emitting(before, s, 1 + j)
      {
        ContinueSegment(before, s, 1 + j, [quantizationTables[i][j] % 256]);
      }
      SegmentDone(before, s);
    }

    method EmitSof(ghost p: Headers.Image)
      requires BufferOk() && numComponents <= 3 && compHSamp <= 2 && compVSamp <= 2
      requires p.width == imageX && p.height == imageY && p.ncomp == numComponents && p.h == compHSamp && p.v == compVSamp
      modifies `sink, `pOutBuf, `outBufLeft, outBuf
      ensures BufferOk() && Output() == old(Output()) + Headers.Sof(p).Bytes()
    {
      hide Output, Emitting, Headers.SofComponents;
      ghost var before, s := Output(), Headers.Sof(p);
      StartSegment(s, Headers.M_SOF0, 3 * numComponents + 2 + 5 + 1);
      ContinueSegment(before, s, 0, [8]);
      ContinueSegment(before, s, 1, Headers.Word(imageY));
      ContinueSegment(before, s, 3, Headers.Word(imageX));
      ContinueSegment(before, s, 5, [numComponents]);
      for i := 0 to numComponents
        invariant BufferOk() && Emitting(before, s, 6 + 3 * i)
      {
        SofComponentAt(numComponents, i, compHSamp, compVSamp);
        ContinueSegment(before, s, 6 + 3 * i, [i + 1, if i == 0 then compHSamp * 16 + compVSamp else 0x11, if i > 0 then 1 else 0]);
      }
      SegmentDone(before, s);
    }

    method EmitDht(ghost t: Table, bits: seq<byte>, val: seq<byte>, index: nat, acFlag: bool)
      requires BufferOk() && |bits| == 17 && t == Table(bits[1..], val) && |val| == Total(t.counts, 16) && index < 2
      modifies `sink, `pOutBuf, `outBufLeft, outBuf
      ensures BufferOk() && Output() == old(Output()) + Headers.Dht(t, index + if acFlag then 16 else 0).Bytes()
    {
      hide Output, Emitting, Total;
      ghost var before, s := Output(), Headers.Dht(t, index + if acFlag then 16 else 0);
      var length: nat := 0;
      SearchStart(bits[1..]);
      for i := 1 to 17
        invariant length == Total(bits[1..], i - 1) && BufferOk() && Output() == before
      {
        TotalStep(bits[1..], i);
        length := length + bits[i];
      }
      StartSegment(s, Headers.M_DHT, length + 2 + 1 + 16);
      ContinueSegment(before, s, 0, [index + if acFlag then 16 else 0]);
      ContinueSegment(before, s, 1, bits[1..]);
      ContinueSegment(before, s, 17, val);
      SegmentDone(before, s);
    }

    method EmitSos()
      requires BufferOk() && numComponents <= 3
      modifies `sink, `pOutBuf, `outBufLeft, outBuf
      ensures BufferOk() && Output() == old(Output()) + Headers.Sos(numComponents).Bytes()
    {
      hide Output, Emitting, Headers.SosComponents;
      ghost var before, s := Output(), Headers.Sos(numComponents);
      StartSegment(s, Headers.M_SOS, 2 * numComponents + 2 + 1 + 3);
      ContinueSegment(before, s, 0, [numComponents]);
      for i := 0 to numComponents
        invariant BufferOk() && Emitting(before, s, 1 + 2 * i)
      {
        SosComponentAt(numComponents, i);
        ContinueSegment(before, s, 1 + 2 * i, [i + 1, if i == 0 then 0 else 0x11]);
      }
      ContinueSegment(before, s, 1 + 2 * numComponents, [0, 63, 0]);
      SegmentDone(before, s);
    }

    method EmitDqt()
      requires BufferOk() && numComponents in {1, 3}
      requires |quantizationTables| == 2 && |quantizationTables[0]| == 64 && |quantizationTables[1]| == 64
      modifies `sink, `pOutBuf, `outBufLeft, outBuf
      ensures BufferOk()
      ensures Output() == old(Output()) + Headers.Flatten(Headers.QuantSegments(numComponents, quantizationTables))
    {
      hide Output, Headers.Dqt, Headers.MarkerSegment.Bytes, Headers.Flatten;
      ghost var before := Output();
      EmitDqtTable(0);
      if numComponents == 3 {
        EmitDqtTable(1);
        Headers.FlattenTwo(before, Headers.Dqt(0, quantizationTables[0]), Headers.Dqt(1, quantizationTables[1]));
        assert [Headers.Dqt(0, quantizationTables[0]), Headers.Dqt(1, quantizationTables[1])]
            == Headers.QuantSegments(numComponents, quantizationTables);
      } else {
        Headers.FlattenOne(Headers.Dqt(0, quantizationTables[0]));
        assert [Headers.Dqt(0, quantizationTables[0])] + [] == [Headers.Dqt(0, quantizationTables[0])];
      }
    }

    /** The two tables of a component class (half of `emit_dhts`). */
    method EmitTables(chroma: bool)
      requires BufferOk()
      modifies `sink, `pOutBuf, `outBufLeft, outBuf
      ensures BufferOk() && Output() == old(Output()) + Headers.Flatten(Headers.Tables(chroma))
    {
      hide Output, Headers.MarkerSegment.Bytes, Headers.Flatten, Headers.Dht, Table.Valid, Distinct, CoefficientSymbols, Total;
      ghost var before := Output();
      TableShapes(chroma);
      EmitDht(DcTable(chroma), if chroma then DC_CHROMA_BITS else DC_LUM_BITS, DC_VALS, if chroma then 1 else 0, false);
      EmitDht(AcTable(chroma), if chroma then AC_CHROMA_BITS else AC_LUM_BITS,
              if chroma then AcChromaVals() else AcLumVals(), if chroma then 1 else 0, true);
      Headers.FlattenTwo(before, Headers.Tables(chroma)[0], Headers.Tables(chroma)[1]);
    }

    method EmitDhts()
      requires BufferOk() && numComponents in {1, 3}
      modifies `sink, `pOutBuf, `outBufLeft, outBuf
      ensures BufferOk() && Output() == old(Output()) + Headers.Flatten(Headers.TableSegments(numComponents))
    {
      hide Output, Headers.Flatten, Headers.Tables;
      ghost var before := Output();
      EmitTables(false);
      if numComponents == 3 {
        EmitTables(true);
        Headers.FlattenConcat(Headers.Tables(false), Headers.Tables(true));
        Associate(before, Headers.Flatten(Headers.Tables(false)), Headers.Flatten(Headers.Tables(true)));
      } else {
        assert Headers.Tables(false) + [] == Headers.Tables(false);
      }
    }

    /** The image `jpg_open` describes. */
    ghost function ImageOf(): Headers.Image
      reads `imageX, `imageY, `numComponents, `compHSamp, `compVSamp, `quantizationTables
    {
      Headers.Image(imageX, imageY, numComponents, compHSamp, compVSamp, quantizationTables)
    }

    /** All markers at the beginning of the image. */
    method EmitHeader()
      requires BufferOk() && ImageOf().Ok()
      modifies `sink, `pOutBuf, `outBufLeft, outBuf
      ensures BufferOk() && Output() == old(Output()) + Headers.Header(ImageOf())
    {
      hide Output, Headers.Flatten, Headers.QuantSegments, Headers.TableSegments, Headers.Sof, Headers.Sos, Headers.MarkerSegment.Bytes;
      ghost var before, p := Output(), ImageOf();
      EmitMarker(Headers.M_SOI);
      EmitJfifApp0();
      EmitDqt();
      EmitSof(p);
      EmitDhts();
      EmitSos();
      Headers.HeaderParts(before, p);
    }

    /** The sampling set-up of `jpg_open`: subsampling 0 is luma only, then 4:4:4, 4:2:2 and 4:2:0. */
    method SetSampling(subsampling: nat)
      requires subsampling <= 3
      modifies `numComponents, `compHSamp, `compVSamp
      ensures SamplingOk() && (numComponents, compHSamp, compVSamp) == Sampling(subsampling)
    {
      numComponents := 3;
      match subsampling {
        case 0 =>
          numComponents := 1;
          compHSamp, compVSamp := 1, 1;
        case 1 =>
          compHSamp, compVSamp := 1, 1;
        case 2 =>
          compHSamp, compVSamp := 2, 1;
        case 3 =>
          compHSamp, compVSamp := 2, 2;
      }
    }

    /** The static tables: quantisers again when the quality changes, codes once. */
    method SetTables(quality: int)
      requires StaticsOk() && 1 <= quality <= 100
      modifies `lastQuality, `quantizationTables, `huffInitialized, `huffCodes, `huffCodeSizes
      ensures StaticsOk() && quantizationTables == Quantizer.TablesFor(quality) && StandardCodes(huffCodes, huffCodeSizes)
    {
      hide StandardCodes, TableCodes, Quantizer.Percentage, Quantizer.ScaledEntry, Quantizer.LumQuant, Quantizer.ChromaQuant;
      if lastQuality != quality {
        lastQuality := quality;
        var lum := Quantizer.ComputeQuantTable(Quantizer.StandardTable(false), quality);
        var chroma := Quantizer.ComputeQuantTable(Quantizer.StandardTable(true), quality);
        quantizationTables := [lum, chroma];
        assert lum == Quantizer.TablesFor(quality)[0] && chroma == Quantizer.TablesFor(quality)[1];
      }
      if !huffInitialized {
        huffInitialized := true;
        huffCodes, huffCodeSizes := StandardHuffman();
      }
    }

    /** The first half of `jpg_open`. */
    method SetUp(width: nat, height: nat, subsampling: nat, quality: int)
      requires width >= 1 && height >= 1 && subsampling <= 3 && 1 <= quality <= 100 && StaticsOk()
      modifies `numComponents, `compHSamp, `compVSamp, `imageX, `imageY
      modifies `lastQuality, `quantizationTables, `huffInitialized, `huffCodes, `huffCodeSizes
      ensures SamplingOk() && StaticsOk() && ImageOf().Ok() && StandardCodes(huffCodes, huffCodeSizes)
      ensures ImageOf() == ImageFor(width, height, subsampling, quality)
    {
      hide StandardCodes, Quantizer.TablesFor, StaticsOk, Headers.Image.Ok, SamplingOk;
      SetSampling(subsampling);
      imageX, imageY := width, height;
      SetTables(quality);
      ImageReady(quality);
    }

    /**
     `jpg_open` for valid parameters (`init` refuses a size below 1 and a quality outside 1..100; a failed
     allocation of the line buffers is not modelled): the header is out, and the scan is empty.
     */
    method JpgOpen(width: nat, height: nat, subsampling: nat, quality: int)
      requires width >= 1 && height >= 1 && subsampling <= 3 && 1 <= quality <= 100
      requires ArraysOk() && outBuf.Length == JPGE_OUT_BUF_SIZE && StaticsOk()
      modifies this, outBuf
      ensures Valid() && ScanSoFar() && SamplingOk() && StaticsOk() && ImageOf().Ok()
      ensures ImageOf() == ImageFor(width, height, subsampling, quality)
      ensures Units == [] && Coders == StandardCoders() && Header == old(sink) + Headers.Header(ImageOf())
    {
      hide Output, Headers.Header, StandardCodes, StandardCoders, StaticsOk, Valid, ScanSoFar;
      hide Headers.Image.Ok, SamplingOk, ImageOf, ImageFor;
      SetUp(width, height, subsampling, quality);
      StartBits();
      EmitHeader();
      Header := Output();
      ScanStarts();
    }

    /** Empty buffers, predictors and records. */
    method StartBits()
      requires outBuf.Length == JPGE_OUT_BUF_SIZE
      modifies `outBufLeft, `pOutBuf, `bitBuffer, `bitsIn, `lastDcVal, `Put, `Units, `Coders
      ensures BufferOk() && Output() == sink && Units == [] && Put == [] && Coders == StandardCoders()
      ensures lastDcVal == [0, 0, 0] && bitBuffer == 0 && bitsIn == 0
    {
      hide StandardCoders;
      outBufLeft := JPGE_OUT_BUF_SIZE;
      pOutBuf := 0;
      bitBuffer := 0;
      bitsIn := 0;
      lastDcVal := [0, 0, 0];
      Put, Units, Coders := [], [], StandardCoders();
    }

    lemma ImageReady(quality: int)
      requires SamplingOk() && imageX >= 1 && imageY >= 1 && 1 <= quality <= 100
      requires quantizationTables == Quantizer.TablesFor(quality)
      ensures ImageOf().Ok()
    {
    }

    /** Before the first block nothing has been put. */
    lemma ScanStarts()
      requires BufferOk() && ArraysOk() && Header == Output() && Put == [] && Units == [] && Coders == StandardCoders()
      requires lastDcVal == [0, 0, 0] && bitBuffer == 0 && bitsIn == 0 && StandardCodes(huffCodes, huffCodeSizes)
      requires ImageOf().Ok()
      ensures Valid() && ScanSoFar()
    {
      hide Output, ScanBits, BlockBits, TableCodes, DcTable, AcTable, Table.Valid;
      StandardTablesOk(huffCodes, huffCodeSizes);
      ScanNone(Coders, [0, 0, 0]);
      NothingHeld();
      assert Header + [] == Header;
    }

    /** An octet of the scan, with the zero that follows an FF. */
    method EmitStuffed(c: byte)
      requires BufferOk()
      modifies `sink, `pOutBuf, `outBufLeft, outBuf
      ensures BufferOk() && Output() == old(Output()) + StuffByte(c)
    {
      EmitByte(c);
      if c == 0xFF {
        EmitByte(0);
      }
    }

    method PutBits(bits: nat, len: nat)
      requires Valid() && len <= 16 && bits < Pow2(len)
      modifies `sink, `pOutBuf, `outBufLeft, outBuf, `bitBuffer, `bitsIn, `Put
      ensures Valid() && Put == old(Put) + BitsOf(bits, len)
    {
      hide Pack, Rest, Stuff, StuffByte, Pow2, BitsOf, BitOr, ValueOf, Holds, TablesOk;
      ghost var all := Rest(Put) + BitsOf(bits, len);
      ghost var held, raw: seq<byte> := all, [];
      StuffNone();
      OrIn(bitBuffer, Rest(Put), bits, len);
      bitsIn := bitsIn + len;
      bitBuffer := BitOr(bitBuffer, (bits * Pow2(24 - bitsIn)) % Pow2(32));
      while bitsIn >= 8
        invariant Put == old(Put) && BufferOk() && Output() == old(Output()) + Stuff(raw)
        invariant bitsIn == |held| && Holds(bitBuffer, held)
        invariant Pack(all) == raw + Pack(held) && Rest(all) == Rest(held)
      {
        ByteOut(bitBuffer, held);
        PackStep(held);
        RestStep(held);
        var c: byte := (bitBuffer / 65536) % 256;
        StuffMore(raw, c);
        EmitStuffed(c);
        bitBuffer := (bitBuffer * 256) % Pow2(32);
        bitsIn := bitsIn - 8;
        raw, held := raw + [c], held[8..];
      }
      PackFew(held);
      PutMore(Header, Put, BitsOf(bits, len), raw);
      Put := Put + BitsOf(bits, len);
    }

    /** The table behind index `ti` of `huffCodes`: 0 and 1 are DC, 2 and 3 AC. */
    ghost function TableAt(ti: nat): Table
      requires ti < 4 && |Coders| == 2
      reads `Coders
    {
      if ti < 2 then Coders[ti].dc else Coders[ti - 2].ac
    }

    lemma TableEntry(ti: nat, s: nat)
      requires TablesOk() && ti < 4 && s < 256
      ensures |Coders| == 2 && |lastDcVal| == 3 && |huffCodes| == 4 && |huffCodeSizes| == 4
      ensures TableAt(ti).Valid() && |TableAt(ti).counts| == 16 && |TableAt(ti).vals| == Total(TableAt(ti).counts, 16)
      ensures |huffCodes[ti]| == 256 && |huffCodeSizes[ti]| == 256
      ensures Coded(huffCodes[ti][s], huffCodeSizes[ti][s], SymBits(TableAt(ti), s))
    {
    }

    method PutSymbol(ti: nat, s: nat)
      requires Valid() && ti < 4 && s < 256
      modifies `sink, `pOutBuf, `outBufLeft, outBuf, `bitBuffer, `bitsIn, `Put
      ensures Valid() && TableAt(ti).Valid() && Put == old(Put) + SymBits(TableAt(ti), s)
    {
      hide SymBits, Pack, Rest, Stuff, Holds, Pow2, BitsOf;
      TableEntry(ti, s);
      PutBits(huffCodes[ti][s], huffCodeSizes[ti][s]);
    }

    /** `put_bits(temp2 & ((1 << nbits) - 1), nbits)`. */
    method PutValue(ghost v: int, temp2: int, nbits: nat)
      requires Valid() && nbits == NBits(Abs(v)) <= 16 && temp2 == if v < 0 then v - 1 else v
      modifies `sink, `pOutBuf, `outBufLeft, outBuf, `bitBuffer, `bitsIn, `Put
      ensures Valid() && Put == old(Put) + ValueBits(v)
    {
      hide Pack, Rest, Stuff, Holds, TablesOk, Pow2, NBits, BitsOf;
      ExtraBound(v, nbits);
      PutBits(temp2 % Pow2(nbits), nbits);
    }

    /** A ZRL code for every 16 zeros of the run. */
    method CodeRun(ti: nat, run: nat) returns (runLen: nat)
      requires Valid() && 2 <= ti < 4
      modifies `sink, `pOutBuf, `outBufLeft, outBuf, `bitBuffer, `bitsIn, `Put
      ensures Valid() && TableAt(ti).Valid() && Put == old(Put) + ZrlBits(TableAt(ti), run / 16) && runLen == run % 16
    {
      hide Pack, Rest, Stuff, Holds, TablesOk, Pow2, SymBits, BitsOf;
      TableEntry(ti, 0);
      ghost var t := TableAt(ti);
      runLen := run;
      while runLen >= 16
        invariant Valid() && Put + ZrlBits(t, runLen / 16) == old(Put) + ZrlBits(t, run / 16)
        invariant runLen % 16 == run % 16
      {
        ghost var before := Put;
        PutSymbol(ti, 0xF0);
        runLen := runLen - 16;
        Associate(before, SymBits(t, 0xF0), ZrlBits(t, runLen / 16));
      }
    }

    /** One non-zero AC coefficient after `run` zeros. */
    method CodeCoefficient(ti: nat, run: nat, v: int) returns (runLen: nat)
      requires Valid() && 2 <= ti < 4 && v != 0 && NBits(Abs(v)) <= 15
      modifies `sink, `pOutBuf, `outBufLeft, outBuf, `bitBuffer, `bitsIn, `Put
      ensures Valid() && TableAt(ti).Valid() && Put == old(Put) + CoefBits(TableAt(ti), run, v) && runLen == 0
    {
      hide Pack, Rest, Stuff, Holds, TablesOk, Pow2, SymBits, ValueBits, BitsOf, ZrlBits, Total;
      TableEntry(ti, 0);
      ghost var t := TableAt(ti);
      runLen := CodeRun(ti, run);
      var temp1, temp2 := v, v;
      if temp2 < 0 {
        temp1 := -temp1;
        temp2 := temp2 - 1;
      }
      var nbits := 1;
      temp1 := temp1 / 2;
      while temp1 != 0
        invariant temp1 >= 0 && nbits + NBits(temp1) == NBits(Abs(v))
      {
        nbits := nbits + 1;
        temp1 := temp1 / 2;
      }
      ghost var s := AcSymbol(runLen, nbits);
      PutSymbol(ti, runLen * 16 + nbits);
      PutValue(v, temp2, nbits);
      Associate(old(Put) + ZrlBits(t, run / 16), SymBits(t, s), ValueBits(v));
      Associate(old(Put), ZrlBits(t, run / 16), SymBits(t, s) + ValueBits(v));
      runLen := 0;
    }

    method CodeAc(ti: nat)
      requires Valid() && 2 <= ti < 4
      requires forall i :: 1 <= i < 64 ==> NBits(Abs(coefficientArray[i])) <= 15
      modifies `sink, `pOutBuf, `outBufLeft, outBuf, `bitBuffer, `bitsIn, `Put
      ensures Valid() && TableAt(ti).Valid() && coefficientArray[..] == old(coefficientArray[..])
      ensures Put == old(Put) + AcBits(TableAt(ti), coefficientArray[..], 1, 0)
    {
      hide Pack, Rest, Stuff, Holds, TablesOk, Pow2, SymBits, CoefBits, NBits;
      TableEntry(ti, 0);
      ghost var t := TableAt(ti);
      ghost var blk: Block := coefficientArray[..];
      var runLen, i := 0, 1;
      while i < 64
        invariant Valid() && 1 <= i <= 64 && coefficientArray[..] == blk
        invariant Put + AcBits(t, blk, i, runLen) == old(Put) + AcBits(t, blk, 1, 0)
      {
        var temp1 := coefficientArray[i];
        if temp1 == 0 {
          runLen := runLen + 1;
        } else {
          ghost var before, run := Put, runLen;
          runLen := CodeCoefficient(ti, runLen, temp1);
          Associate(before, CoefBits(t, run, temp1), AcBits(t, blk, i + 1, 0));
        }
        i := i + 1;
      }
      if runLen > 0 {
        PutSymbol(ti, 0);
      }
    }

    /** The DC difference. */
    method CodeDc(ti: nat, diff: int)
      requires Valid() && ti < 2 && NBits(Abs(diff)) <= 16
      modifies `sink, `pOutBuf, `outBufLeft, outBuf, `bitBuffer, `bitsIn, `Put
      ensures Valid() && TableAt(ti).Valid() && coefficientArray[..] == old(coefficientArray[..])
      ensures Put == old(Put) + DcBits(TableAt(ti), diff)
    {
      hide Pack, Rest, Stuff, Holds, TablesOk, Pow2, SymBits, BitsOf;
      TableEntry(ti, 0);
      var temp1, temp2 := diff, diff;
      if temp1 < 0 {
        temp1 := -temp1;
        temp2 := temp2 - 1;
      }
      var nbits := 0;
      while temp1 != 0
        invariant temp1 >= 0 && nbits + NBits(temp1) == NBits(Abs(diff))
      {
        nbits := nbits + 1;
        temp1 := temp1 / 2;
      }
      PutSymbol(ti, nbits);
      if nbits != 0 {
        PutValue(diff, temp2, nbits);
      }
      Associate(old(Put), SymBits(TableAt(ti), nbits), ValueBits(diff));
    }

    /** `code_coefficients_pass_two`. */
    method CodeCoefficientsPassTwo(componentNum: nat)
      requires Valid() && componentNum < 3 && |lastDcVal| == 3
      requires NBits(Abs(coefficientArray[0] - lastDcVal[componentNum])) <= 16
      requires forall i :: 1 <= i < 64 ==> NBits(Abs(coefficientArray[i])) <= 15
      modifies `sink, `pOutBuf, `outBufLeft, outBuf, `bitBuffer, `bitsIn, `Put, `lastDcVal
      ensures Valid() && |Coders| == 2 && CoderOf(Coders, componentNum).Valid() && coefficientArray[..] == old(coefficientArray[..])
      ensures Put == old(Put) + BlockBits(CoderOf(Coders, componentNum), coefficientArray[..], old(lastDcVal[componentNum]))
      ensures lastDcVal == old(lastDcVal)[componentNum := coefficientArray[0]]
    {
      hide Pack, Rest, Stuff, Holds, DcBits, AcBits, NBits, Total;
      var id := if componentNum == 0 then 0 else 1;
      ghost var coef: Block := coefficientArray[..];
      ghost var diff := coef[0] - lastDcVal[componentNum];
      CoderTables(componentNum);
      var temp1 := coefficientArray[0] - lastDcVal[componentNum];
      lastDcVal := lastDcVal[componentNum := coefficientArray[0]];
      CodeDc(id, temp1);
      CodeAc(2 + id);
      Associate(old(Put), DcBits(TableAt(id), diff), AcBits(TableAt(2 + id), coef, 1, 0));
    }

    lemma CoderTables(componentNum: nat)
      requires TablesOk() && componentNum < 3
      ensures var id := if componentNum == 0 then 0 else 1;
              && TableAt(id) == CoderOf(Coders, componentNum).dc && TableAt(2 + id) == CoderOf(Coders, componentNum).ac
              && CoderOf(Coders, componentNum).Valid()
    {
    }

    /** The samples transformed in place, and their quantised coefficients. */
    method TransformAndQuantize(q: seq<int>)
      requires ArraysOk() && Dct.IsSamples(sampleArray[..]) && Quantizer.IsQuantTable(q)
      modifies sampleArray, coefficientArray
      ensures Dct.Transformed(old(sampleArray[..]), sampleArray[..])
      ensures Quantizer.QuantizedFrom(coefficientArray[..], sampleArray[..], q) && Quantizer.InCategories(coefficientArray[..])
    {
      hide Dct.Transformed, Dct.IsSamples, Dct.CoefficientsInRange, Quantizer.InCategories;
      Dct.DCT2D(sampleArray);
      Quantizer.LoadQuantizedCoefficients(sampleArray, q, coefficientArray);
      Quantizer.SymbolsInRange(sampleArray[..], q, coefficientArray[..]);
    }

    /** `code_block`: transform, quantise and code the samples loaded in `sampleArray`. */
    method CodeBlock(componentNum: nat)
      requires Valid() && ScanSoFar() && componentNum < 3 && Dct.IsSamples(sampleArray[..])
      modifies `sink, `pOutBuf, `outBufLeft, outBuf, `bitBuffer, `bitsIn, `Put, `lastDcVal, `Units, sampleArray, coefficientArray
      ensures Valid() && ScanSoFar() && Header == old(Header)
      ensures Dct.Transformed(old(sampleArray[..]), sampleArray[..])
      ensures Quantizer.QuantizedFrom(coefficientArray[..], sampleArray[..], quantizationTables[if componentNum > 0 then 1 else 0])
      ensures Units == old(Units) + [Unit(componentNum, coefficientArray[..])]
    {
      hide Valid, ScanSoFar, BlockBits, ScanBits, Preds, NBits, Dct.Transformed, Quantizer.QuantizedFrom, Dct.IsSamples, UnitsOk, CodersOk;
      hide Quantizer.InCategories, UnitOk, PredOk, Quantizer.IsQuantTable, Coder.Valid, Total, CoderOf, Components, ArraysOk, SymBits;
      hide TablesOk, BufferOk;
      CodingFacts();
      TransformAndQuantize(quantizationTables[if componentNum > 0 then 1 else 0]);
      ghost var coef: Block := coefficientArray[..];
      ghost var us, last := Units, lastDcVal;
      CategoriesFit(coef, last, componentNum);
      CodeCoefficientsPassTwo(componentNum);
      Units := us + [Unit(componentNum, coef)];
      UnitCoded(us, Unit(componentNum, coef), last);
    }

    /** What coding the next block relies on. */
    lemma CodingFacts()
      requires Valid() && ScanSoFar()
      ensures ArraysOk() && |Coders| == 2 && CodersOk(Coders) && UnitsOk(Units) && Components(Units) && Put == ScanBits(Coders, Units, [0, 0, 0])
      ensures |lastDcVal| == 3 && lastDcVal == Preds(Units, [0, 0, 0]) && PredOk(lastDcVal)
      ensures |quantizationTables| == 2 && Quantizer.IsQuantTable(quantizationTables[0]) && Quantizer.IsQuantTable(quantizationTables[1])
    {
    }

    lemma CategoriesFit(coef: Block, last: seq<int>, componentNum: nat)
      requires Quantizer.InCategories(coef) && PredOk(last) && componentNum < 3
      ensures |last| == 3 && NBits(Abs(coef[0] - last[componentNum])) <= 16 && UnitOk(Unit(componentNum, coef))
      ensures forall i :: 1 <= i < 64 ==> NBits(Abs(coef[i])) <= 15
    {
      hide NBits;
      Scan.DcDifference(coef[0], last[componentNum]);
    }

    /** The block coded continues the scan. */
    lemma UnitCoded(us: seq<Unit>, u: Unit, last: seq<int>)
      requires CodersOk(Coders) && UnitsOk(us) && Components(us) && UnitOk(u) && last == Preds(us, [0, 0, 0]) && PredOk(last)
      requires |quantizationTables| == 2 && Quantizer.IsQuantTable(quantizationTables[0]) && Quantizer.IsQuantTable(quantizationTables[1])
      requires Units == us + [u] && lastDcVal == last[u.comp := u.blk[0]]
      requires Put == ScanBits(Coders, us, [0, 0, 0]) + BlockBits(CoderOf(Coders, u.comp), u.blk, last[u.comp])
      ensures ScanSoFar()
    {
      hide BlockBits, ScanBits, Preds, AcSmall, CodersOk, Quantizer.IsQuantTable;
      ScanAppend(Coders, us, u, [0, 0, 0]);
    }

    /** Loads a block of samples (as the `load_block` routines leave it) and codes it. */
    method CodeSamples(samples: seq<int>, componentNum: nat)
      requires Valid() && ScanSoFar() && componentNum < 3 && Dct.IsSamples(samples)
      modifies `sink, `pOutBuf, `outBufLeft, outBuf, `bitBuffer, `bitsIn, `Put, `lastDcVal, `Units, sampleArray, coefficientArray
      ensures Valid() && ScanSoFar() && Header == old(Header)
      ensures UnitsFrom(old(Units), Units, [componentNum], [samples], quantizationTables)
    {
      hide Pack, Rest, Stuff, Holds, ScanBits, Preds, Dct.Transformed, TablesOk, Output, ScanSoFar, Quantizer.QuantizedFrom;
      QuantLength();
      for i := 0 to 64
        invariant forall k :: 0 <= k < i ==> sampleArray[k] == samples[k]
        invariant Valid() && ScanSoFar() && Units == old(Units) && Header == old(Header)
      {
        sampleArray[i] := samples[i];
      }
      assert sampleArray[..] == samples;
      CodeBlock(componentNum);
    }

    lemma QuantLength()
      requires ScanSoFar()
      ensures |quantizationTables| == 2
    {
    }

    /** The sampling `jpg_open` sets up: greyscale, 4:4:4, 4:2:2 or 4:2:0. */
    ghost predicate SamplingOk()
      reads `numComponents, `compHSamp, `compVSamp
    {
      || (numComponents == 1 && compHSamp == 1 && compVSamp == 1)
      || (numComponents == 3 && (compHSamp, compVSamp) in {(1, 1), (2, 1), (2, 2)})
    }

    function LumaBlocks(): nat
      reads `compHSamp, `compVSamp
    {
      compHSamp * compVSamp
    }

    ghost predicate McuSamples(mcu: seq<seq<int>>)
      reads `numComponents, `compHSamp, `compVSamp
    {
      |mcu| == |McuComps(LumaBlocks(), numComponents)| && forall i :: 0 <= i < |mcu| ==> Dct.IsSamples(mcu[i])
    }

    /** One MCU (the loop bodies of `process_mcu_row`, by sampling). */
    method ProcessMcu(mcu: seq<seq<int>>)
      requires Valid() && ScanSoFar() && SamplingOk() && McuSamples(mcu)
      modifies `sink, `pOutBuf, `outBufLeft, outBuf, `bitBuffer, `bitsIn, `Put, `lastDcVal, `Units, sampleArray, coefficientArray
      ensures Valid() && ScanSoFar() && Header == old(Header)
      ensures UnitsFrom(old(Units), Units, McuComps(LumaBlocks(), numComponents), mcu, quantizationTables)
    {
      hide Valid, ScanSoFar, UnitsFrom, Dct.IsSamples;
      ghost var us := Units;
      ghost var q := quantizationTables;
      McuLists(mcu);
      if numComponents == 1 {
        CodeSamples(mcu[0], 0);
      } else if compHSamp == 1 && compVSamp == 1 {
        CodeSamples(mcu[0], 0);
        CodeChroma(mcu, 1, us, [0]);
      } else if compHSamp == 2 && compVSamp == 1 {
        CodeSamples(mcu[0], 0);
        CodeLuma(mcu, 1, us);
        CodeChroma(mcu, 2, us, [0, 0]);
      } else if compHSamp == 2 && compVSamp == 2 {
        CodeSamples(mcu[0], 0);
        CodeLuma(mcu, 1, us);
        CodeLuma(mcu, 2, us);
        CodeLuma(mcu, 3, us);
        CodeChroma(mcu, 4, us, [0, 0, 0, 0]);
      }
    }

    lemma McuLists(mcu: seq<seq<int>>)
      requires SamplingOk() && McuSamples(mcu)
      ensures |mcu| > 0 && [mcu[0]] == mcu[..1] && [0] == LumaComps(1) && mcu[..|mcu|] == mcu
      ensures LumaComps(2) == [0, 0] && LumaComps(4) == [0, 0, 0, 0]
      ensures var nby := LumaBlocks();
              |mcu| == nby + (if numComponents == 3 then 2 else 0)
              && McuComps(nby, numComponents) == LumaComps(nby) + (if numComponents == 3 then [1, 2] else [])
      ensures numComponents == 1 ==> McuComps(LumaBlocks(), 1) == [0]
      ensures compHSamp == 1 && compVSamp == 1 ==> LumaBlocks() == 1
      ensures compHSamp == 2 && compVSamp == 1 ==> LumaBlocks() == 2
      ensures compHSamp == 2 && compVSamp == 2 ==> LumaBlocks() == 4
    {
    }

    /** The luma block after the first `n`. */
    method CodeLuma(mcu: seq<seq<int>>, n: nat, ghost us: seq<Unit>)
      requires Valid() && ScanSoFar() && n < |mcu| && Dct.IsSamples(mcu[n])
      requires UnitsFrom(us, Units, LumaComps(n), mcu[..n], quantizationTables)
      modifies `sink, `pOutBuf, `outBufLeft, outBuf, `bitBuffer, `bitsIn, `Put, `lastDcVal, `Units, sampleArray, coefficientArray
      ensures Valid() && ScanSoFar() && Header == old(Header)
      ensures UnitsFrom(us, Units, LumaComps(n + 1), mcu[..n + 1], quantizationTables)
    {
      hide Valid, ScanSoFar, UnitsFrom, Dct.IsSamples;
      ghost var before := Units;
      CodeSamples(mcu[n], 0);
      MoreCoded(us, before, Units, LumaComps(n), [0], mcu[..n], [mcu[n]], quantizationTables);
      assert mcu[..n] + [mcu[n]] == mcu[..n + 1];
    }

    /** The two chroma blocks after the `n` luma blocks. */
    method CodeChroma(mcu: seq<seq<int>>, n: nat, ghost us: seq<Unit>, ghost comps: seq<nat>)
      requires Valid() && ScanSoFar() && n + 2 == |mcu| && Dct.IsSamples(mcu[n]) && Dct.IsSamples(mcu[n + 1])
      requires UnitsFrom(us, Units, comps, mcu[..n], quantizationTables)
      modifies `sink, `pOutBuf, `outBufLeft, outBuf, `bitBuffer, `bitsIn, `Put, `lastDcVal, `Units, sampleArray, coefficientArray
      ensures Valid() && ScanSoFar() && Header == old(Header)
      ensures UnitsFrom(us, Units, comps + [1, 2], mcu, quantizationTables)
    {
      hide Valid, ScanSoFar, UnitsFrom, Dct.IsSamples;
      ghost var a := Units;
      CodeSamples(mcu[n], 1);
      MoreCoded(us, a, Units, comps, [1], mcu[..n], [mcu[n]], quantizationTables);
      ghost var b := Units;
      CodeSamples(mcu[n + 1], 2);
      MoreCoded(us, b, Units, comps + [1], [2], mcu[..n] + [mcu[n]], [mcu[n + 1]], quantizationTables);
      assert comps + [1] + [2] == comps + [1, 2];
      assert mcu[..n] + [mcu[n]] + [mcu[n + 1]] == mcu;
    }

    /** `process_mcu_row`: the MCUs of a row, left to right. */
    method ProcessMcuRow(mcus: seq<seq<seq<int>>>)
      requires Valid() && ScanSoFar() && SamplingOk() && forall i :: 0 <= i < |mcus| ==> McuSamples(mcus[i])
      modifies `sink, `pOutBuf, `outBufLeft, outBuf, `bitBuffer, `bitsIn, `Put, `lastDcVal, `Units, sampleArray, coefficientArray
      ensures Valid() && ScanSoFar() && Header == old(Header)
      ensures UnitsFrom(old(Units), Units, ScanComps(LumaBlocks(), numComponents, |mcus|), Flat(mcus), quantizationTables)
    {
      hide Valid, ScanSoFar, UnitsFrom, ScanComps, McuComps;
      ghost var nby := LumaBlocks();
      NothingCoded(Units, nby, numComponents, quantizationTables);
      for i := 0 to |mcus|
        invariant Valid() && ScanSoFar() && Header == old(Header)
        invariant UnitsFrom(old(Units), Units, ScanComps(nby, numComponents, i), Flat(mcus[..i]), quantizationTables)
      {
        ghost var before := Units;
        ProcessMcu(mcus[i]);
        assert mcus[..i + 1][..i] == mcus[..i];
        ScanCompsMore(nby, numComponents, i);
        MoreCoded(old(Units), before, Units, ScanComps(nby, numComponents, i), McuComps(nby, numComponents),
                  Flat(mcus[..i]), mcus[i], quantizationTables);
      }
      assert mcus[..|mcus|] == mcus;
    }

    /** The end of `process_end_of_image`: pad, flush, and write the EOI marker. */
    method FinishImage()
      requires Valid() && ScanSoFar()
      modifies `sink, `pOutBuf, `outBufLeft, outBuf, `bitBuffer, `bitsIn, `Put
      ensures CodersOk(Coders) && Components(Units)
      ensures sink == old(Header) + ScanBytes(ScanBits(Coders, Units, [0, 0, 0]))
    {
      hide Pack, Rest, Stuff, Holds, ScanBits, TablesOk;
      SevenOnes();
      PutBits(0x7F, 7);
      EmitMarker(M_EOI);
      FlushOutputBuffer();
      Associate(Header, Stuff(Pack(Put)), [0xFF, M_EOI]);
    }
  }

  /** Components and luma sampling factors of a subsampling mode: luma only, 4:4:4, 4:2:2 and 4:2:0. */
  function Sampling(subsampling: nat): (nat, nat, nat) {
    match subsampling
    case 0 => (1, 1, 1)
    case 1 => (3, 1, 1)
    case 2 => (3, 2, 1)
    case _ => (3, 2, 2)
  }

  /** The image that parameters describe. */
  function ImageFor(width: nat, height: nat, subsampling: nat, quality: int): Headers.Image
    requires 1 <= quality <= 100
  {
    var (n, h, v) := Sampling(subsampling);
    Headers.Image(width, height, n, h, v, Quantizer.TablesFor(quality))
  }

  /** The static code arrays hold the standard codes: DC luma, DC chroma, AC luma, AC chroma. */
  ghost predicate StandardCodes(codes: seq<seq<nat>>, sizes: seq<seq<nat>>) {
    && |codes| == 4 && |sizes| == 4
    && TableCodes(codes[0], sizes[0], DcTable(false)) && TableCodes(codes[1], sizes[1], DcTable(true))
    && TableCodes(codes[2], sizes[2], AcTable(false)) && TableCodes(codes[3], sizes[3], AcTable(true))
  }

  /** The four tables as `jpg_open` builds them. */
  method StandardHuffman() returns (codes: seq<seq<nat>>, sizes: seq<seq<nat>>)
    ensures StandardCodes(codes, sizes)
  {
    hide TableCodes, CoefficientSymbols, Total, Kraft, Distinct;
    TableShapes(false);
    TableShapes(true);
    var dcLumCodes, dcLumSizes := HuffmanTable(DC_LUM_BITS, DC_VALS);
    var acLumCodes, acLumSizes := HuffmanTable(AC_LUM_BITS, AcLumVals());
    var dcChromaCodes, dcChromaSizes := HuffmanTable(DC_CHROMA_BITS, DC_VALS);
    var acChromaCodes, acChromaSizes := HuffmanTable(AC_CHROMA_BITS, AcChromaVals());
    codes := [dcLumCodes, dcChromaCodes, acLumCodes, acChromaCodes];
    sizes := [dcLumSizes, dcChromaSizes, acLumSizes, acChromaSizes];
  }

  lemma TableShapes(chroma: bool)
    ensures var dc, ac := DcTable(chroma), AcTable(chroma);
            && dc.Valid() && ac.Valid() && Distinct(dc.vals) && Distinct(ac.vals)
            && |dc.counts| == 16 == |ac.counts|
            && |dc.vals| == Total(dc.counts, 16) == 12 && |ac.vals| == Total(ac.counts, 16) == 162
    ensures |DC_LUM_BITS| == |DC_CHROMA_BITS| == |AC_LUM_BITS| == |AC_CHROMA_BITS| == 17
  {
    hide CoefficientSymbols, Total, KraftSum;
    DcTableOk(chroma);
    AcTableOk(chroma);
    CoefficientSymbolsParts(AcTable(chroma).vals);
  }

  lemma StandardTablesOk(codes: seq<seq<nat>>, sizes: seq<seq<nat>>)
    requires StandardCodes(codes, sizes)
    ensures CodersOk(StandardCoders()) && |codes| == 4 && |sizes| == 4
    ensures forall c :: 0 <= c < 2 ==> TableCodes(codes[c], sizes[c], StandardCoders()[c].dc)
    ensures forall c :: 0 <= c < 2 ==> TableCodes(codes[2 + c], sizes[2 + c], StandardCoders()[c].ac)
  {
    hide TableCodes, DcTable, AcTable, Table.Valid;
    TableShapes(false);
    TableShapes(true);
  }

  lemma NothingHeld()
    ensures Pack([]) == [] && Rest([]) == [] && Stuff([]) == [] && Holds(0, [])
  {
    HoldsNothing();
  }

  lemma {:induction false} SofComponentAt(n: nat, i: nat, h: nat, v: nat)
    requires i < n <= 3 && h <= 2 && v <= 2
    ensures Headers.SofComponents(n, h, v)[3 * i..3 * i + 3] == [i + 1, if i == 0 then h * 16 + v else 0x11, if i > 0 then 1 else 0]
  {
    if i < n - 1 {
      SofComponentAt(n - 1, i, h, v);
    }
  }

  lemma SosStep(n: nat)
    requires 1 <= n <= 3
    ensures Headers.SosComponents(n) == Headers.SosComponents(n - 1) + [n, if n == 1 then 0 else 0x11]
  {
  }

  lemma {:induction false} SosComponentAt(n: nat, i: nat)
    requires i < n <= 3
    ensures Headers.SosComponents(n)[2 * i..2 * i + 2] == [i + 1, if i == 0 then 0 else 0x11]
  {
    hide *;
    SosStep(n);
    if i < n - 1 {
      SosComponentAt(n - 1, i);
      assert Headers.SosComponents(n)[2 * i..2 * i + 2] == Headers.SosComponents(n - 1)[2 * i..2 * i + 2];
    }
  }

  /** The unit is the quantised transform of the samples. */
  ghost predicate CodedFrom(u: Unit, samples: seq<int>, q: seq<seq<int>>) {
    && |q| == 2 && Dct.IsSamples(samples)
    && exists t: seq<int> :: |t| == 64 && Dct.Transformed(samples, t)
         && Quantizer.QuantizedFrom(u.blk, t, q[if u.comp > 0 then 1 else 0])
  }

  /** The units added carry the given components and code the given sample blocks, in order. */
  ghost predicate UnitsFrom(before: seq<Unit>, after: seq<Unit>, comps: seq<nat>, samples: seq<seq<int>>, q: seq<seq<int>>) {
    && |comps| == |samples| && |after| == |before| + |comps| && after[..|before|] == before
    && forall i :: 0 <= i < |comps| ==> UnitFrom(after, |before| + i, comps[i], samples[i], q)
  }

  ghost predicate UnitFrom(us: seq<Unit>, i: nat, comp: nat, samples: seq<int>, q: seq<seq<int>>) {
    i < |us| && us[i].comp == comp && CodedFrom(us[i], samples, q)
  }

  function LumaComps(n: nat): (r: seq<nat>)
    ensures |r| == n
  {
    if n == 0 then [] else LumaComps(n - 1) + [0]
  }

  /** All sample blocks of a row of MCUs, in coding order. */
  function Flat(mcus: seq<seq<seq<int>>>): seq<seq<int>> {
    if |mcus| == 0 then [] else Flat(mcus[..|mcus| - 1]) + mcus[|mcus| - 1]
  }

  lemma NothingCoded(us: seq<Unit>, nby: nat, ncomp: nat, q: seq<seq<int>>)
    ensures UnitsFrom(us, us, ScanComps(nby, ncomp, 0), Flat([]), q)
  {
  }

  lemma MoreCoded(a: seq<Unit>, b: seq<Unit>, c: seq<Unit>, comps: seq<nat>, comps': seq<nat>,
                  samples: seq<seq<int>>, samples': seq<seq<int>>, q: seq<seq<int>>)
    requires UnitsFrom(a, b, comps, samples, q) && UnitsFrom(b, c, comps', samples', q)
    ensures UnitsFrom(a, c, comps + comps', samples + samples', q)
  {
    hide CodedFrom;
    forall i | 0 <= i < |comps + comps'| ensures UnitFrom(c, |a| + i, (comps + comps')[i], (samples + samples')[i], q) {
      if i < |comps| {
        assert UnitFrom(b, |a| + i, comps[i], samples[i], q);
        assert c[..|b|][|a| + i] == c[|a| + i];
      } else {
        assert UnitFrom(c, |b| + (i - |comps|), comps'[i - |comps|], samples'[i - |comps|], q);
      }
    }
    assert c[..|a|] == c[..|b|][..|a|];
  }

  lemma SevenOnes()
    ensures 0x7F < Pow2(7) && BitsOf(0x7F, 7) == Ones(7)
  {
    Pow2Values();
    OnesBits(7);
  }

  lemma ExtraBound(v: int, n: nat)
    ensures 0 <= (if v < 0 then v - 1 else v) % Pow2(n) < Pow2(n)
    ensures Extra(v, n) == (if v < 0 then v - 1 else v) % Pow2(n)
  {
  }

  lemma StuffNone()
    ensures Stuff([]) == []
  {
  }

  /** Emitting the stuffed new octets keeps the output tied to all bits put. */
  lemma PutMore(header: seq<byte>, put: seq<bool>, bits: seq<bool>, raw: seq<byte>)
    requires Pack(Rest(put) + bits) == raw
    ensures (header + Stuff(Pack(put))) + Stuff(raw) == header + Stuff(Pack(put + bits))
    ensures Rest(Rest(put) + bits) == Rest(put + bits)
  {
    hide *;
    PackAppend(put, bits);
    StuffAppend(Pack(put), raw);
    Associate(header, Stuff(Pack(put)), Stuff(raw));
  }

  lemma StuffMore(raw: seq<byte>, c: byte)
    ensures Stuff(raw + [c]) == Stuff(raw) + StuffByte(c)
  {
    StuffAppend(raw, [c]);
    assert [c][1..] == [];
  }

  lemma PackFew(bits: seq<bool>)
    requires |bits| < 8
    ensures Pack(bits) == [] && Rest(bits) == bits
  {
  }
}
