/**
 `jd_prepare`: what parsing a header means, segment by segment, and the decompressor's methods that do it.
 */
module Prepare {
  import opened Bits
  import opened Huffman
  import opened HuffmanSearch
  import opened Zigzag
  import opened Decoder
  import Dct

  const JDR_MEM1: int := 3
  const JDR_MEM2: int := 4
  const JDR_FMT3: int := 8

  datatype Outcome<T> = Done(value: T) | Failed(rc: int) {
    predicate IsFailure() {
      Failed?
    }

    function PropagateFailure<U>(): Outcome<U>
      requires Failed?
    {
      Failed(rc)
    }

    function Extract(): T
      requires Done?
    {
      value
    }
  }

  /** The decompressor's knowledge of the image while the header is parsed; an unloaded quantiser table is empty. */
  datatype State = State(width: nat, height: nat, ncomp: nat, msx: nat, msy: nat, nrst: nat,
                         qtid: seq<nat>, qttbl: seq<seq<int>>,
                         tables: seq<seq<Table>>, loaded: seq<seq<bool>>, szPool: nat) {
    predicate Ok() {
      && ncomp in {0, 1, 3} && |qtid| == 3 && |qttbl| == 4 && (forall c :: 0 <= c < 3 ==> qtid[c] < 4)
      && (forall i :: 0 <= i < 4 ==> |qttbl[i]| in {0, 64})
      && |tables| == 2 && |tables[0]| == 2 && |tables[1]| == 2
      && |loaded| == 2 && |loaded[0]| == 2 && |loaded[1]| == 2
    }
  }

  function Aligned(n: nat): (r: nat)
    ensures r >= n
  {
    (n + 3) / 4 * 4
  }

  /** `alloc_pool`: the bytes left after a block of `n`, aligned to words. */
  function Pool(szPool: nat, n: nat): (r: Outcome<nat>)
    ensures r.Failed? ==> r.rc == JDR_MEM1
  {
    if szPool >= Aligned(n) then Done(szPool - Aligned(n)) else Failed(JDR_MEM1)
  }

  /** `LDB_WORD`. */
  function Ldb(s: seq<byte>, i: nat): nat
    requires i + 2 <= |s|
  {
    var high: nat := s[i];
    high * 256 + s[i + 1]
  }

  // ---------- DQT ----------

  /** Input scale factors of the Arai IDCT, times 8192 and truncated to 16 bits. */
  function Ipsf(i: nat): (f: nat)
    ensures f < 65536
  {
    match i
    case 0 => 8192 case 1 => 11362 case 2 => 10703 case 3 => 9632 case 4 => 8192 case 5 => 6436 case 6 => 4433 case 7 => 2260
    case 8 => 11362 case 9 => 15760 case 10 => 14846 case 11 => 13361 case 12 => 11362 case 13 => 8927 case 14 => 6149 case 15 => 3134
    case 16 => 10703 case 17 => 14846 case 18 => 13984 case 19 => 12585 case 20 => 10703 case 21 => 8409 case 22 => 5792 case 23 => 2953
    case 24 => 9632 case 25 => 13361 case 26 => 12585 case 27 => 11326 case 28 => 9632 case 29 => 7568 case 30 => 5213 case 31 => 2657
    case 32 => 8192 case 33 => 11362 case 34 => 10703 case 35 => 9632 case 36 => 8192 case 37 => 6436 case 38 => 4433 case 39 => 2260
    case 40 => 6436 case 41 => 8927 case 42 => 8409 case 43 => 7568 case 44 => 6436 case 45 => 5057 case 46 => 3483 case 47 => 1775
    case 48 => 4433 case 49 => 6149 case 50 => 5792 case 51 => 5213 case 52 => 4433 case 53 => 3483 case 54 => 2399 case 55 => 1223
    case 56 => 2260 case 57 => 3134 case 58 => 2953 case 59 => 2657 case 60 => 2260 case 61 => 1775 case 62 => 1223 case 63 => 623
    case _ => 0
  }

  /** A table in raster order from one in zigzag order, with the scale factors applied. */
  function QtTable(data: seq<byte>): (q: seq<int>)
    requires |data| == 64
    ensures |q| == 64
  {
    ZigzagIsPermutation();
    RasterInverse();
    seq(64, r requires 0 <= r < 64 => data[Inv(r)] * Ipsf(r))
  }

  lemma RasterInverse()
    ensures forall r :: 0 <= r < 64 ==> Inv(r) < 64
  {
  }

  /** `create_qt_tbl` on the segment content `data`. */
  function QtTables(st: State, data: seq<byte>): (r: Outcome<State>)
    requires st.Ok()
    ensures r.Failed? ==> r.rc in {JDR_FMT1, JDR_FMT3, JDR_MEM1}
    ensures r.Done? ==> r.value.Ok()
    decreases |data|
  {
    if |data| == 0 then Done(st)
    else if |data| < 65 then Failed(JDR_FMT1)
    else if data[0] >= 16 then Failed(JDR_FMT1)
    else
      var sz :- Pool(st.szPool, 256);
      QtTables(st.(qttbl := st.qttbl[data[0] % 4 := QtTable(data[1..65])], szPool := sz), data[65..])
  }

  // ---------- DHT ----------

  function LutBytes(fast: nat, ac: bool): nat {
    if fast == 2 then if ac then 2 * HUFF_LEN else HUFF_LEN else 0
  }

  /** One table of a DHT segment: the state after it and the number of bytes taken. */
  function HuffTable(fast: nat, st: State, data: seq<byte>): (r: Outcome<(State, nat)>)
    requires st.Ok() && |data| > 0
    ensures r.Failed? ==> r.rc in {JDR_FMT1, JDR_FMT3, JDR_MEM1}
    ensures r.Done? ==> r.value.0.Ok() && 17 <= r.value.1 <= |data|
  {
    if |data| < 17 || data[0] !in {0x00, 0x01, 0x10, 0x11} then Failed(JDR_FMT1) else
    var cls, num, counts := data[0] / 16, data[0] % 16, data[1..17];
    var np := Total(counts, 16);
    var sz1 :- Pool(st.szPool, 16);
    var sz2 :- Pool(sz1, 2 * np);
    if |data| - 17 < np then Failed(JDR_FMT1) else
    var sz3 :- Pool(sz2, np);
    var vals := data[17..17 + np];
    if !SymbolsFit(cls == 1, vals) then Failed(JDR_FMT1) else
    var sz4 :- Pool(sz3, LutBytes(fast, cls == 1));
    Done((st.(tables := st.tables[num := st.tables[num][cls := Table(counts, vals)]],
              loaded := st.loaded[num := st.loaded[num][cls := true]],
              szPool := sz4), 17 + np))
  }

  /** `create_huffman_tbl` on the segment content `data`. */
  function HuffTables(fast: nat, st: State, data: seq<byte>): (r: Outcome<State>)
    requires st.Ok()
    ensures r.Failed? ==> r.rc in {JDR_FMT1, JDR_FMT3, JDR_MEM1}
    ensures r.Done? ==> r.value.Ok()
    decreases |data|
  {
    if |data| == 0 then Done(st) else
    var one :- HuffTable(fast, st, data);
    HuffTables(fast, one.0, data[one.1..])
  }

  // ---------- SOF0 and SOS ----------

  /** The components from `i` on; only 4:4:4, 4:2:2 and 4:2:0 are accepted. */
  function SofComponents(st: State, buf: seq<byte>, i: nat): (r: Outcome<State>)
    requires st.Ok() && |buf| >= 16
    ensures r.Failed? ==> r.rc in {JDR_FMT1, JDR_FMT3, JDR_MEM1}
    ensures r.Done? ==> r.value.Ok()
    decreases 3 - i
  {
    if i >= st.ncomp then Done(st) else
    var b := buf[7 + 3 * i];
    if (if i == 0 then b !in {0x11, 0x22, 0x21} else b != 0x11) then Failed(JDR_FMT3)
    else if buf[8 + 3 * i] > 3 then Failed(JDR_FMT3)
    else
      var st1 := if i == 0 then st.(msx := b / 16, msy := b % 16) else st;
      SofComponents(st1.(qtid := st1.qtid[i := buf[8 + 3 * i]]), buf, i + 1)
  }

  function Sof(st: State, buf: seq<byte>): (r: Outcome<State>)
    requires st.Ok() && |buf| >= 16
    ensures r.Failed? ==> r.rc in {JDR_FMT1, JDR_FMT3, JDR_MEM1}
    ensures r.Done? ==> r.value.Ok()
  {
    if buf[5] !in {1, 3} then Failed(JDR_FMT3)
    else SofComponents(st.(width := Ldb(buf, 3), height := Ldb(buf, 1), ncomp := buf[5]), buf, 0)
  }

  /** All tables the components need have been loaded. */
  function SosComponents(st: State, buf: seq<byte>, i: nat): (r: Outcome<()>)
    requires st.Ok() && |buf| >= 16
    ensures r.Failed? ==> r.rc in {JDR_FMT1, JDR_FMT3}
    decreases 3 - i
  {
    if i >= st.ncomp then Done(()) else
    var n := if i > 0 then 1 else 0;
    if buf[2 + 2 * i] !in {0x00, 0x11} then Failed(JDR_FMT3)
    else if !st.loaded[n][0] || !st.loaded[n][1] then Failed(JDR_FMT1)
    else if st.qttbl[st.qtid[i]] == [] then Failed(JDR_FMT1)
    else SosComponents(st, buf, i + 1)
  }

  /** The working buffer serves the IDCT and the pixels of an MCU of `n` luma blocks. */
  function WorkBytes(n: nat): nat {
    if n * 128 + 64 < 256 then 256 else n * 128 + 64
  }

  /** The MCU buffer; a sample takes two bytes in the fast builds. */
  function McuBytes(fast: nat, n: nat): nat {
    (n + 2) * (if fast >= 1 then 128 else 64)
  }

  function Sos(fast: nat, st: State, buf: seq<byte>): (r: Outcome<State>)
    requires st.Ok() && |buf| >= 16
    ensures r.Failed? ==> r.rc in {JDR_FMT1, JDR_FMT3, JDR_MEM1}
    ensures r.Done? ==> r.value.Ok()
  {
    if st.width == 0 || st.height == 0 then Failed(JDR_FMT1)
    else if buf[0] != st.ncomp then Failed(JDR_FMT3)
    else
      var _ :- SosComponents(st, buf, 0);
      var n := st.msx * st.msy;
      if n == 0 then Failed(JDR_FMT1) else
      var sz1 :- Pool(st.szPool, WorkBytes(n));
      var sz2 :- Pool(sz1, McuBytes(fast, n));
      Done(st.(szPool := sz2))
  }

  // ---------- the whole header ----------

  /** What parsing leaves: the state and the bytes of the scan. */
  datatype Prepared = Prepared(st: State, rest: seq<byte>)

  /** The first FF D8; the marker register is 16 bits wide. */
  function FindSoi(s: seq<byte>, marker: nat): (r: Outcome<seq<byte>>)
    ensures r.Done? ==> |r.value| < |s|
  {
    if |s| == 0 then Failed(JDR_INP) else
    var m := marker % 256 * 256 + s[0];
    if m == 0xFFD8 then Done(s[1..]) else FindSoi(s[1..], m)
  }

  predicate Loads(m: nat) {
    m in {0xC0, 0xC4, 0xDA, 0xDB, 0xDD}
  }

  predicate Unsupported(m: nat) {
    m in {0xC1, 0xC2, 0xC3, 0xC5, 0xC6, 0xC7, 0xC9, 0xCA, 0xCB, 0xCD, 0xCE, 0xCF, 0xD9}
  }

  /** A loaded segment other than SOS, in the first `n` bytes of the buffer. */
  function Apply(fast: nat, st: State, m: nat, buf: seq<byte>, n: nat): (r: Outcome<State>)
    requires st.Ok() && |buf| >= 16 && n <= |buf| && m in {0xC0, 0xC4, 0xDB, 0xDD}
    ensures r.Failed? ==> r.rc in {JDR_FMT1, JDR_FMT3, JDR_MEM1}
    ensures r.Done? ==> r.value.Ok()
  {
    if m == 0xC0 then Sof(st, buf)
    else if m == 0xDD then Done(st.(nrst := Ldb(buf, 0)))
    else if m == 0xC4 then HuffTables(fast, st, buf[..n])
    else QtTables(st, buf[..n])
  }

  /** What a skip of `n` bytes leaves of the stream. */
  function Skipped(s: seq<byte>, n: nat): (r: seq<byte>)
    ensures |r| <= |s|
  {
    if n <= |s| then s[n..] else []
  }

  /** The segments from the stream `s` on; `buf` is what the input buffer holds. */
  function Parse(fast: nat, st: State, buf: seq<byte>, s: seq<byte>): (r: Outcome<Prepared>)
    requires st.Ok() && |buf| >= 16
    ensures r.Done? ==> r.value.st.Ok()
    decreases |s|, 0
  {
    if |s| < 4 then Failed(JDR_INP) else
    var b := s[..4] + buf[4..];
    if Ldb(b, 0) != 0xFFFF then ParseSegment(fast, st, b, Ldb(b, 0), Ldb(b, 2), s[4..])
    else if |s| < 5 then Failed(JDR_INP)
    else ParseSegment(fast, st, b[4 := s[4]], Ldb(b, 1), Ldb(b[4 := s[4]], 3), s[5..])
  }

  function ParseSegment(fast: nat, st: State, buf: seq<byte>, marker: nat, len: nat, s: seq<byte>): (r: Outcome<Prepared>)
    requires st.Ok() && |buf| >= 16
    ensures r.Done? ==> r.value.st.Ok()
    decreases |s|, 1
  {
    if len <= 2 || marker / 256 != 0xFF then Failed(JDR_FMT1) else
    var n, m := len - 2, marker % 256;
    if Loads(m) then
      if n > |buf| then Failed(JDR_MEM2) else if |s| < n then Failed(JDR_INP) else
      var b := s[..n] + buf[n..];
      if m == 0xDA then
        var ready :- Sos(fast, st, b);
        Done(Prepared(ready, s[n..]))
      else
        var next :- Apply(fast, st, m, b, n);
        Parse(fast, next, b, s[n..])
    else if Unsupported(m) then Failed(JDR_FMT3)
    else Parse(fast, st, buf, Skipped(s, n))
  }

  function Empty(): State {
    State(0, 0, 0, 0, 0, 0, [0, 0, 0], [[], [], [], []], [[NoCodes(), NoCodes()], [NoCodes(), NoCodes()]],
          [[false, false], [false, false]], 0)
  }

  /** A table that has not been loaded: no codes. */
  function NoCodes(): Table {
    Table([0, 0, 0, 0, 0, 0, 0, 0, 0, 0, 0, 0, 0, 0, 0, 0], [])
  }

  /** `jd_prepare` as a whole: the input buffer of `szBuf` bytes starts out as `buf`. */
  function PrepareImage(fast: nat, szPool: nat, buf: seq<byte>, s: seq<byte>): Outcome<Prepared>
    requires |buf| >= 16
  {
    var sz :- Pool(szPool, |buf|);
    var rest :- FindSoi(s, 0);
    Parse(fast, Empty().(szPool := sz), [0xD8] + buf[1..], rest)
  }

  // ---------- skipping beyond the end ----------

  /** The bytes `jpeg_decode_in_cb` copies; the difference is taken in 32 bits without sign. */
  function Granted(size: nat, read: nat, nbyte: nat): nat {
    if read + nbyte > size then (size - read) % 0x1_0000_0000 else nbyte
  }

  /** The copy is longer than the request, or takes bytes from beyond the image. */
  predicate Overruns(size: nat, read: nat, nbyte: nat) {
    var n := Granted(size, read, nbyte);
    n > nbyte || (n > 0 && read + n > size)
  }

  /** What is copied while the position is inside the image, and after a skip beyond its end. */
  lemma GrantedIs(size: nat, read: nat, nbyte: nat)
    requires read <= size + 65535 && nbyte < 0x1_0000_0000
    ensures Overruns(size, read, nbyte) <==> read > size
    ensures read <= size ==> Granted(size, read, nbyte) == if nbyte <= size - read then nbyte else size - read
    ensures read > size ==> Granted(size, read, nbyte) == size + 0x1_0000_0000 - read
  {
  }

  /** Following the length fields of `s`, no skipped segment ends beyond the last byte. */
  predicate LengthsInside(s: seq<byte>)
    decreases |s|, 0
  {
    if |s| < 4 then true
    else if Ldb(s, 0) != 0xFFFF then SegmentInside(Ldb(s, 0), Ldb(s, 2), s[4..])
    else |s| < 5 || SegmentInside(Ldb(s, 1), Ldb(s, 3), s[5..])
  }

  predicate SegmentInside(marker: nat, len: nat, s: seq<byte>)
    decreases |s|, 1
  {
    if len <= 2 || marker / 256 != 0xFF || marker % 256 == 0xDA || Unsupported(marker % 256) then true
    else if len - 2 <= |s| then LengthsInside(s[len - 2..])
    else Loads(marker % 256)
  }

  /**
   The header can be parsed without reading beyond the image: its length fields stay inside, or the parser stops
   with an error of another kind before it gets to the one that does not.
   */
  predicate SkipsStayInside(fast: nat, szPool: nat, buf: seq<byte>, image: seq<byte>)
    requires |buf| >= 16
  {
    || FindSoi(image, 0).Failed?
    || LengthsInside(FindSoi(image, 0).value)
    || PrepareImage(fast, szPool, buf, image) != Failed(JDR_INP)
  }

  /** An application segment of sixteen bytes, and the image ends behind its length. */
  function CutShort(): seq<byte> {
    [0xFF, 0xD8, 0xFF, 0xE1, 0x00, 0x10]
  }

  /** The skip goes to position 20 of 6 bytes, and the next request for 4 is granted all but 14 bytes of the address space. */
  lemma SkipBeyondEnd(fast: nat, szPool: nat, buf: seq<byte>)
    requires |buf| >= 16 && szPool >= Aligned(|buf|)
    ensures !SkipsStayInside(fast, szPool, buf, CutShort())
    ensures Granted(|CutShort()|, 20, 4) == 0xFFFF_FFF2 && Overruns(|CutShort()|, 20, 4)
  {
    var s := CutShort();
    assert FindSoi(s, 0) == FindSoi(s[1..], 0xFF) == Done(s[1..][1..]);
    var rest := s[2..];
    assert rest == s[1..][1..] == [0xFF, 0xE1, 0x00, 0x10];
    var b := rest[..4] + ([0xD8] + buf[1..])[4..];
    assert b[0] == 0xFF && b[1] == 0xE1 && b[2] == 0 && b[3] == 0x10;
    assert rest[4..] == [];
    var st := Empty().(szPool := szPool - Aligned(|buf|));
    assert Parse(fast, st, b, []) == Failed(JDR_INP);
    assert ParseSegment(fast, st, b, 0xFFE1, 16, []) == Failed(JDR_INP);
  }

  // ---------- segments that say nothing ----------

  /** Comments and application segments (ITU-T T.81 Table B.1). */
  predicate Ignored(marker: byte) {
    marker == 0xFE || 0xE0 <= marker <= 0xEF
  }

  /** A segment of `payload`: its length counts the two bytes that hold it. */
  function Segment(marker: byte, payload: seq<byte>): seq<byte>
    requires |payload| < 65534
  {
    var len := |payload| + 2;
    [0xFF, marker, len / 256, len % 256] + payload
  }

  /** A comment or application segment anywhere between two segments changes nothing, neither outcome nor error. */
  lemma IgnoredSegment(fast: nat, st: State, buf: seq<byte>, marker: byte, payload: seq<byte>, rest: seq<byte>)
    requires st.Ok() && |buf| >= 16 && Ignored(marker) && 1 <= |payload| < 65534
    ensures Parse(fast, st, buf, Segment(marker, payload) + rest) == Parse(fast, st, buf, rest)
    ensures LengthsInside(Segment(marker, payload) + rest) == LengthsInside(rest)
  {
    hide Parse, LengthsInside;
    var s := Segment(marker, payload) + rest;
    var b := s[..4] + buf[4..];
    SegmentStart(fast, st, buf, marker, payload, rest);
    assert s[4..] == payload + rest && (payload + rest)[|payload|..] == rest;
    assert b[4..] == buf[4..];
    SameBehindWords(fast, st, b, buf, rest);
  }

  lemma SegmentStart(fast: nat, st: State, buf: seq<byte>, marker: byte, payload: seq<byte>, rest: seq<byte>)
    requires st.Ok() && |buf| >= 16 && marker != 0xFF && |payload| < 65534
    ensures var s := Segment(marker, payload) + rest;
            && Parse(fast, st, buf, s) == ParseSegment(fast, st, s[..4] + buf[4..], 0xFF00 + marker as int, |payload| + 2, s[4..])
            && LengthsInside(s) == SegmentInside(0xFF00 + marker as int, |payload| + 2, s[4..])
  {
    hide ParseSegment, SegmentInside;
    var s := Segment(marker, payload) + rest;
    assert s[0] == 0xFF && s[1] == marker && s[2] == (|payload| + 2) / 256 && s[3] == (|payload| + 2) % 256;
  }

  /** Frames other than baseline: the start-of-frame markers but C0 (C4, C8 and CC are none). */
  predicate OtherFrame(marker: byte) {
    0xC1 <= marker <= 0xCF && marker != 0xC4 && marker != 0xC8 && marker != 0xCC
  }

  /** A progressive, lossless or arithmetically coded frame is refused, and so is the end of the image before its scan. */
  lemma OtherFrameRefused(fast: nat, st: State, buf: seq<byte>, marker: byte, payload: seq<byte>, rest: seq<byte>)
    requires st.Ok() && |buf| >= 16 && (OtherFrame(marker) || marker == 0xD9) && 1 <= |payload| < 65534
    ensures Parse(fast, st, buf, Segment(marker, payload) + rest) == Failed(JDR_FMT3)
  {
    hide Parse, LengthsInside;
    SegmentStart(fast, st, buf, marker, payload, rest);
  }

  /** The first four bytes of the buffer are read over. */
  lemma SameBehindWords(fast: nat, st: State, a: seq<byte>, b: seq<byte>, s: seq<byte>)
    requires st.Ok() && |a| == |b| >= 16 && a[4..] == b[4..]
    ensures Parse(fast, st, a, s) == Parse(fast, st, b, s)
  {
    hide ParseSegment, Ldb;
  }

  // ---------- the scale factors ----------

  /** The factor of a row or column: 1 for the first, and otherwise the square root of 2 times its cosine, times 8192. */
  function AanFactor(k: nat): int {
    if k == 0 then 8192 else Dct.QuarterTurn(k)
  }

  /** The table of scale factors is the product of a row and a column factor, up to rounding. */
  lemma IpsfIsProduct(row: nat, column: nat)
    requires row < 8 && column < 8
    ensures Dct.Near(8192 * Ipsf(8 * row + column), AanFactor(row) * AanFactor(column), 2 * 8192)
  {
  }
}
