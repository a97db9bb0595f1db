/**
 The header parser of the decompressor as it runs, on the fields of the decompression object and its input
 buffer, proved against the meaning given in `Prepare`.
 */
module JdPrepare {
  import opened Bits
  import opened Stuffing
  import opened Huffman
  import opened HuffmanSearch
  import opened Entropy
  import opened Zigzag
  import opened Decoder
  import opened Prepare

  ghost predicate Shaped(tables: seq<seq<CodeTable>>) {
    |tables| == 2 && |tables[0]| == 2 && |tables[1]| == 2
  }

  ghost function Specs(tables: seq<seq<CodeTable>>): seq<seq<Table>>
    requires Shaped(tables)
  {
    [[tables[0][0].Spec(), tables[0][1].Spec()], [tables[1][0].Spec(), tables[1][1].Spec()]]
  }

  /** What the parser has learnt so far. */
  ghost function StateOf(jd: Jdec): State
    requires Shaped(jd.tables)
    reads jd`width, jd`height, jd`ncomp, jd`msx, jd`msy, jd`nrst, jd`qtid, jd`qttbl, jd`tables, jd`loaded, jd`szPool
  {
    State(jd.width, jd.height, jd.ncomp, jd.msx, jd.msy, jd.nrst, jd.qtid, jd.qttbl, Specs(jd.tables), jd.loaded, jd.szPool)
  }

  /** A code table as `create_huffman_tbl` builds it. */
  ghost predicate BuiltTable(tb: CodeTable, ac: bool, fast: nat) {
    && |tb.bits| == 16 && |tb.data| == Total(tb.bits, 16) && |tb.code| == |tb.data| && SymbolsFit(ac, tb.data)
    && RebuiltTo(tb.code, tb.bits, |tb.code|)
    && (fast == 2 && Kraft(tb.bits) ==>
          && |tb.lut| == HUFF_LEN && (forall w :: 0 <= w < HUFF_LEN ==> tb.lut[w] == LutEntry(ac, HuffDecode(tb.Spec(), BitsOf(w, 10))))
          && tb.longofs == Total(tb.bits, 10) % 256)
  }

  ghost predicate Built(tables: seq<seq<CodeTable>>, fast: nat) {
    && Shaped(tables)
    && BuiltTable(tables[0][0], false, fast) && BuiltTable(tables[0][1], true, fast)
    && BuiltTable(tables[1][0], false, fast) && BuiltTable(tables[1][1], true, fast)
  }

  /** The parser's own invariant. */
  ghost predicate Parsing(jd: Jdec)
    reads jd`width, jd`height, jd`ncomp, jd`msx, jd`msy, jd`nrst, jd`qtid, jd`qttbl, jd`tables, jd`loaded, jd`szPool
  {
    Shaped(jd.tables) && Built(jd.tables, jd.FAST) && StateOf(jd).Ok()
  }

  method AllocPool(jd: Jdec, n: nat) returns (ok: bool)
    modifies jd`szPool
    ensures match Pool(old(jd.szPool), n)
            case Failed(_) => !ok
            case Done(sz) => ok && jd.szPool == sz
  {
    var ndata := (n + 3) / 4 * 4;
    ok := false;
    if jd.szPool >= ndata {
      jd.szPool := jd.szPool - ndata;
      ok := true;
    }
  }

  // ---------- quantiser tables ----------

  /** One table from zigzag to raster order, with the scale factors applied. */
  method LoadQtTable(data: seq<byte>) returns (pb: seq<int>)
    requires |data| == 64
    ensures pb == QtTable(data)
  {
    hide Zig, Inv, Ipsf;
    ZigzagIsPermutation();
    RasterIsZigzag();
    pb := Zeros(64);
    for i := 0 to 64
      invariant |pb| == 64 && forall k :: 0 <= k < i ==> Zig(k) < 64 && pb[Zig(k)] == data[k] * Ipsf(Zig(k))
    {
      assert InverseAt(i);
      var zi := Zig(i);
      pb := pb[zi := data[i] * Ipsf(zi)];
    }
    forall r | 0 <= r < 64 ensures pb[r] == QtTable(data)[r] {
      assert Inv(r) < 64 && Zig(Inv(r)) == r;
    }
  }

  lemma RasterIsZigzag()
    ensures forall r :: 0 <= r < 64 ==> Inv(r) < 64 && Zig(Inv(r)) == r
  {
  }

  lemma QtStep(st: State, data: seq<byte>)
    requires st.Ok()
    ensures |data| == 0 ==> QtTables(st, data) == Done(st)
    ensures |data| > 0 && (|data| < 65 || data[0] >= 16) ==> QtTables(st, data) == Failed(JDR_FMT1)
    ensures |data| >= 65 && data[0] < 16 ==>
              QtTables(st, data)
              == match Pool(st.szPool, 256)
                 case Failed(rc) => Failed(rc)
                 case Done(sz) => QtTables(st.(qttbl := st.qttbl[data[0] % 4 := QtTable(data[1..65])], szPool := sz), data[65..])
  {
    hide QtTable;
  }

  method CreateQtTbl(jd: Jdec, data: seq<byte>) returns (rc: int)
    requires Parsing(jd)
    modifies jd`qttbl, jd`szPool
    ensures match QtTables(old(StateOf(jd)), data)
            case Failed(e) => rc == e && e != 0
            case Done(st) => rc == 0 && Parsing(jd) && StateOf(jd) == st
  {
    hide QtTables, Built, QtTable;
    ghost var goal := QtTables(StateOf(jd), data);
    var rest := data;
    while |rest| > 0
      invariant Parsing(jd) && jd.tables == old(jd.tables) && QtTables(StateOf(jd), rest) == goal
      decreases |rest|
    {
      QtStep(StateOf(jd), rest);
      if |rest| < 65 {
        return JDR_FMT1;
      }
      var d := rest[0];
      if d / 16 != 0 {
        return JDR_FMT1;
      }
      var ok := AllocPool(jd, 64 * 4);
      if !ok {
        return JDR_MEM1;
      }
      var pb := LoadQtTable(rest[1..65]);
      jd.qttbl := jd.qttbl[d % 4 := pb];
      rest := rest[65..];
    }
    QtStep(StateOf(jd), rest);
    return 0;
  }

  // ---------- code tables ----------

  /** The number of codes of each length, and their sum. */
  method SumCounts(pb: seq<byte>) returns (np: nat)
    requires |pb| == 16
    ensures np == Total(pb, 16)
  {
    np := 0;
    for i := 0 to 16
      invariant np == Total(pb, i)
    {
      np := np + pb[i];
    }
  }

  /** Loading the symbols; a DC symbol above 11 is refused. */
  method LoadSymbols(data: seq<byte>, ac: bool) returns (ok: bool)
    ensures ok == SymbolsFit(ac, data)
  {
    for i := 0 to |data|
      invariant !ac ==> forall k :: 0 <= k < i ==> data[k] <= 11
    {
      if !ac && data[i] > 11 {
        return false;
      }
    }
    return true;
  }

  /** The lookup table, in the build that has one. */
  method BuildLut(fast: nat, ac: bool, pb: seq<byte>, ph: array<nat>, pd: seq<byte>) returns (tb: CodeTable)
    requires |pb| == 16 && |pd| == Total(pb, 16) == ph.Length && SymbolsFit(ac, pd) && RebuiltTo(ph[..], pb, ph.Length)
    ensures BuiltTable(tb, ac, fast) && tb.Spec() == Table(pb, pd)
  {
    hide Total, SymbolsFit, Kraft, RebuiltTo, HuffDecode, BitsOf, LutEntry;
    tb := CodeTable(pb, ph[..], pd, [], 0);
    if fast == 2 {
      var tbl := new nat[HUFF_LEN];
      var longofs := CreateLut(tbl, ac, Table(pb, pd), ph);
      tb := tb.(lut := tbl[..], longofs := longofs % 256);
    }
  }

  lemma HuffStep(fast: nat, st: State, data: seq<byte>)
    requires st.Ok()
    ensures |data| == 0 ==> HuffTables(fast, st, data) == Done(st)
    ensures |data| > 0 ==>
              var one := HuffTable(fast, st, data);
              HuffTables(fast, st, data)
              == if one.Failed? then Failed(one.rc) else HuffTables(fast, one.value.0, data[one.value.1..])
  {
    hide HuffTable;
  }

  /** Registering a built table. */
  method Register(jd: Jdec, num: nat, cls: nat, tb: CodeTable)
    requires Parsing(jd) && num < 2 && cls < 2 && BuiltTable(tb, cls == 1, jd.FAST)
    modifies jd`tables, jd`loaded
    ensures Parsing(jd)
    ensures var st := old(StateOf(jd));
            StateOf(jd) == st.(tables := st.tables[num := st.tables[num][cls := tb.Spec()]],
                               loaded := st.loaded[num := st.loaded[num][cls := true]])
  {
    hide BuiltTable, CodeTable.Spec;
    jd.tables := jd.tables[num := jd.tables[num][cls := tb]];
    jd.loaded := jd.loaded[num := jd.loaded[num][cls := true]];
    ghost var st := old(StateOf(jd));
    assert StateOf(jd).tables[num] == st.tables[num][cls := tb.Spec()];
    assert StateOf(jd).tables[1 - num] == st.tables[1 - num];
    assert StateOf(jd).tables == st.tables[num := st.tables[num][cls := tb.Spec()]];
  }

  /** The outcome of `HuffTable` once the symbols `vals` are known to be good, with `sz` bytes left. */
  ghost function LastAlloc(fast: nat, st: State, d: byte, t: Table, sz: nat): Outcome<(State, nat)>
    requires st.Ok() && d in {0x00, 0x01, 0x10, 0x11}
  {
    match Pool(sz, LutBytes(fast, d / 16 == 1))
    case Failed(rc) => Failed(rc)
    case Done(sz') =>
      Done((st.(tables := st.tables[d % 16 := st.tables[d % 16][d / 16 := t]],
                loaded := st.loaded[d % 16 := st.loaded[d % 16][d / 16 := true]],
                szPool := sz'), 17 + |t.vals|))
  }

  /** What `HuffTable` says, in the order of the checks. */
  lemma HuffTableCases(fast: nat, st: State, data: seq<byte>)
    requires st.Ok() && |data| > 0
    ensures |data| < 17 || data[0] !in {0x00, 0x01, 0x10, 0x11} ==> HuffTable(fast, st, data) == Failed(JDR_FMT1)
    ensures |data| >= 17 && data[0] in {0x00, 0x01, 0x10, 0x11} ==>
              var np := Total(data[1..17], 16);
              HuffTable(fast, st, data)
              == if st.szPool < Aligned(16) || st.szPool - Aligned(16) < Aligned(2 * np) then Failed(JDR_MEM1)
                 else if |data| - 17 < np then Failed(JDR_FMT1)
                 else if st.szPool - Aligned(16) - Aligned(2 * np) < Aligned(np) then Failed(JDR_MEM1)
                 else if !SymbolsFit(data[0] / 16 == 1, data[17..17 + np]) then Failed(JDR_FMT1)
                 else LastAlloc(fast, st, data[0], Table(data[1..17], data[17..17 + np]),
                                st.szPool - Aligned(16) - Aligned(2 * np) - Aligned(np))
  {
    hide Total, SymbolsFit;
  }

  /** The last steps: the lookup table, and registering. */
  method FinishTable(jd: Jdec, d: byte, pb: seq<byte>, ph: array<nat>, pd: seq<byte>) returns (rc: int)
    requires Parsing(jd) && d in {0x00, 0x01, 0x10, 0x11}
    requires |pb| == 16 && |pd| == Total(pb, 16) == ph.Length && SymbolsFit(d / 16 == 1, pd) && RebuiltTo(ph[..], pb, ph.Length)
    modifies jd`tables, jd`loaded, jd`szPool
    ensures match LastAlloc(jd.FAST, old(StateOf(jd)), d, Table(pb, pd), old(jd.szPool))
            case Failed(e) => rc == e && e != 0
            case Done(one) => rc == 0 && Parsing(jd) && StateOf(jd) == one.0 && 17 + |pd| == one.1
  {
    hide Built, Total, SymbolsFit, BuiltTable, RebuiltTo, Specs;
    var ok := AllocPool(jd, LutBytes(jd.FAST, d / 16 == 1));
    if !ok {
      return JDR_MEM1;
    }
    var tb := BuildLut(jd.FAST, d / 16 == 1, pb, ph, pd);
    Register(jd, d % 16, d / 16, tb);
    return 0;
  }

  lemma LastAllocPool(fast: nat, st: State, d: byte, t: Table, sz: nat)
    requires st.Ok() && d in {0x00, 0x01, 0x10, 0x11}
    ensures st.(szPool := sz).Ok() && LastAlloc(fast, st.(szPool := sz), d, t, sz) == LastAlloc(fast, st, d, t, sz)
  {
  }

  /** One table of a DHT segment. */
  method CreateOneTable(jd: Jdec, data: seq<byte>) returns (rc: int, used: nat)
    requires Parsing(jd) && |data| > 0
    modifies jd`tables, jd`loaded, jd`szPool
    ensures var one := HuffTable(jd.FAST, old(StateOf(jd)), data);
            if one.Failed? then rc == one.rc && rc != 0
            else rc == 0 && Parsing(jd) && StateOf(jd) == one.value.0 && used == one.value.1
  {
    hide Built, Total, SymbolsFit, BuiltTable, RebuiltTo, Specs, HuffTable, LastAlloc, State.Ok, Aligned;
    ghost var st := StateOf(jd);
    HuffTableCases(jd.FAST, st, data);
    used := 0;
    if |data| < 17 {
      return JDR_FMT1, used;
    }
    var d := data[0];
    if d !in {0x00, 0x01, 0x10, 0x11} {
      return JDR_FMT1, used;
    }
    var ok := AllocPool(jd, 16);
    if !ok {
      return JDR_MEM1, used;
    }
    var pb := data[1..17];
    var np := SumCounts(pb);
    ok := AllocPool(jd, np * 2);
    if !ok {
      return JDR_MEM1, used;
    }
    var ph := RebuildCodes(pb);
    if |data| - 17 < np {
      return JDR_FMT1, used;
    }
    ok := AllocPool(jd, np);
    if !ok {
      return JDR_MEM1, used;
    }
    var pd := data[17..17 + np];
    ok := LoadSymbols(pd, d / 16 == 1);
    if !ok {
      return JDR_FMT1, used;
    }
    LastAllocPool(jd.FAST, st, d, Table(pb, pd), jd.szPool);
    assert StateOf(jd) == st.(szPool := jd.szPool);
    rc := FinishTable(jd, d, pb, ph, pd);
    used := 17 + np;
  }

  method CreateHuffmanTbl(jd: Jdec, data: seq<byte>) returns (rc: int)
    requires Parsing(jd)
    modifies jd`tables, jd`loaded, jd`szPool
    ensures match HuffTables(jd.FAST, old(StateOf(jd)), data)
            case Failed(e) => rc == e && e != 0
            case Done(st) => rc == 0 && Parsing(jd) && StateOf(jd) == st
  {
    hide HuffTables, HuffTable, Built, Specs;
    ghost var goal := HuffTables(jd.FAST, StateOf(jd), data);
    var rest := data;
    while |rest| > 0
      invariant Parsing(jd) && HuffTables(jd.FAST, StateOf(jd), rest) == goal
      decreases |rest|
    {
      HuffStep(jd.FAST, StateOf(jd), rest);
      var used;
      rc, used := CreateOneTable(jd, rest);
      if rc != 0 {
        return;
      }
      rest := rest[used..];
    }
    HuffStep(jd.FAST, StateOf(jd), rest);
    return 0;
  }

  // ---------- SOF0 and SOS ----------

  lemma SofStep(st: State, buf: seq<byte>, i: nat)
    requires st.Ok() && |buf| >= 16
    ensures i >= st.ncomp ==> SofComponents(st, buf, i) == Done(st)
    ensures i < st.ncomp ==>
              SofComponents(st, buf, i)
              == if (if i == 0 then buf[7] !in {0x11, 0x22, 0x21} else buf[7 + 3 * i] != 0x11) || buf[8 + 3 * i] > 3 then Failed(JDR_FMT3)
                 else
                   var st1 := if i == 0 then st.(msx := buf[7] / 16, msy := buf[7] % 16) else st;
                   SofComponents(st1.(qtid := st1.qtid[i := buf[8 + 3 * i]]), buf, i + 1)
  {
  }

  /** SOF0, loaded at the start of the input buffer. */
  method LoadSof(jd: Jdec) returns (rc: int)
    requires Parsing(jd) && jd.inbuf.Length >= 16
    modifies jd`width, jd`height, jd`ncomp, jd`msx, jd`msy, jd`qtid
    ensures match Sof(old(StateOf(jd)), jd.inbuf[..])
            case Failed(e) => rc == e && e != 0
            case Done(st) => rc == 0 && Parsing(jd) && StateOf(jd) == st
  {
    hide SofComponents, Built, Specs;
    ghost var buf, before := jd.inbuf[..], StateOf(jd);
    var wHigh: nat, hHigh: nat := jd.inbuf[3], jd.inbuf[1];
    jd.width := wHigh * 256 + jd.inbuf[4];
    jd.height := hHigh * 256 + jd.inbuf[2];
    jd.ncomp := jd.inbuf[5];
    if jd.ncomp != 3 && jd.ncomp != 1 {
      return JDR_FMT3;
    }
    ghost var goal := SofComponents(StateOf(jd), buf, 0);
    assert Sof(before, buf) == goal;
    var i := 0;
    while i < jd.ncomp
      invariant Parsing(jd) && i <= jd.ncomp <= 3 && SofComponents(StateOf(jd), buf, i) == goal
      decreases 3 - i
    {
      SofStep(StateOf(jd), buf, i);
      var b := jd.inbuf[7 + 3 * i];
      if i == 0 {
        if b != 0x11 && b != 0x22 && b != 0x21 {
          return JDR_FMT3;
        }
        jd.msx := b / 16;
        jd.msy := b % 16;
      } else {
        if b != 0x11 {
          return JDR_FMT3;
        }
      }
      jd.qtid := jd.qtid[i := jd.inbuf[8 + 3 * i]];
      if jd.qtid[i] > 3 {
        return JDR_FMT3;
      }
      i := i + 1;
    }
    SofStep(StateOf(jd), buf, i);
    return 0;
  }

  lemma SosStep(st: State, buf: seq<byte>, i: nat)
    requires st.Ok() && |buf| >= 16
    ensures i >= st.ncomp ==> SosComponents(st, buf, i) == Done(())
    ensures i < st.ncomp ==>
              SosComponents(st, buf, i)
              == (var n := if i > 0 then 1 else 0;
                  if buf[2 + 2 * i] !in {0x00, 0x11} then Failed(JDR_FMT3)
                  else if !st.loaded[n][0] || !st.loaded[n][1] || st.qttbl[st.qtid[i]] == [] then Failed(JDR_FMT1)
                  else SosComponents(st, buf, i + 1))
  {
  }

  method CheckComponents(jd: Jdec) returns (rc: int)
    requires Parsing(jd) && jd.inbuf.Length >= 16
    ensures match SosComponents(StateOf(jd), jd.inbuf[..], 0)
            case Failed(e) => rc == e && e != 0
            case Done(_) => rc == 0
  {
    hide SosComponents, Built, Specs;
    ghost var buf, st := jd.inbuf[..], StateOf(jd);
    for i := 0 to jd.ncomp
      invariant SosComponents(st, buf, i) == SosComponents(st, buf, 0)
    {
      SosStep(st, buf, i);
      var b := jd.inbuf[2 + 2 * i];
      if b != 0x00 && b != 0x11 {
        return JDR_FMT3;
      }
      var n := if i > 0 then 1 else 0;
      if !jd.loaded[n][0] || !jd.loaded[n][1] {
        return JDR_FMT1;
      }
      if jd.qttbl[jd.qtid[i]] == [] {
        return JDR_FMT1;
      }
    }
    SosStep(st, buf, jd.ncomp);
    return 0;
  }

  /** SOS, loaded at the start of the input buffer: everything needed is there, and the buffers fit. */
  method LoadSos(jd: Jdec) returns (rc: int)
    requires Parsing(jd) && jd.inbuf.Length >= 16
    modifies jd`szPool
    ensures match Prepare.Sos(jd.FAST, old(StateOf(jd)), jd.inbuf[..])
            case Failed(e) => rc == e && e != 0
            case Done(st) => rc == 0 && Parsing(jd) && StateOf(jd) == st
  {
    hide SosComponents, Built, Specs;
    if jd.width == 0 || jd.height == 0 {
      return JDR_FMT1;
    }
    if jd.inbuf[0] != jd.ncomp {
      return JDR_FMT3;
    }
    rc := CheckComponents(jd);
    if rc != 0 {
      return;
    }
    var n := jd.msx * jd.msy;
    if n == 0 {
      return JDR_FMT1;
    }
    var len := n * 64 * 2 + 64;
    if len < 256 {
      len := 256;
    }
    var ok := AllocPool(jd, len);
    if !ok {
      return JDR_MEM1;
    }
    ok := AllocPool(jd, (n + 2) * 64 * (if jd.FAST >= 1 then 2 else 1));
    if !ok {
      return JDR_MEM1;
    }
    return 0;
  }

  // ---------- the segments ----------

  /** The bytes the device still has. */
  ghost function Stream(jd: Jdec): seq<byte>
    reads jd`read
  {
    if jd.read <= |jd.indata| then jd.indata[jd.read..] else []
  }

  /**
   `jpeg_decode_in_cb` into the input buffer.  A copy that overruns is recorded and not carried out: what it would
   leave in memory is not known.
   */
  method InFunc(jd: Jdec, at: nat, nbyte: nat) returns (n: nat)
    requires at + nbyte <= jd.inbuf.Length < 0x1_0000_0000
    modifies jd`read, jd`Overran, jd.inbuf
    ensures n == Granted(|jd.indata|, old(jd.read), nbyte) && jd.read == old(jd.read) + n
    ensures jd.Overran == (old(jd.Overran) || Overruns(|jd.indata|, old(jd.read), nbyte))
    ensures old(jd.read) <= |jd.indata| ==>
              && n == (if nbyte <= |old(Stream(jd))| then nbyte else |old(Stream(jd))|)
              && jd.read <= |jd.indata| && jd.Overran == old(jd.Overran) && Stream(jd) == old(Stream(jd))[n..]
              && jd.inbuf[..] == old(jd.inbuf[..])[..at] + old(Stream(jd))[..n] + old(jd.inbuf[..])[at + n..]
  {
    n := nbyte;
    if jd.read + n > |jd.indata| {
      n := (|jd.indata| - jd.read) % 0x1_0000_0000;
    }
    ghost var buf, s := jd.inbuf[..], Stream(jd);
    if n > nbyte || (n > 0 && jd.read + n > |jd.indata|) {
      jd.Overran := true;
    } else {
      for i := 0 to n
        invariant jd.read == old(jd.read) && jd.Overran == old(jd.Overran)
        invariant forall k :: 0 <= k < jd.inbuf.Length ==> jd.inbuf[k] == if at <= k < at + i then jd.indata[jd.read + (k - at)] else buf[k]
      {
        jd.inbuf[at + i] := jd.indata[jd.read + i];
      }
    }
    jd.read := jd.read + n;
    if old(jd.read) <= |jd.indata| {
      ghost var now := buf[..at] + s[..n] + buf[at + n..];
      assert forall k :: 0 <= k < jd.inbuf.Length ==> jd.inbuf[k] == now[k];
    }
  }

  /** `jpeg_decode_in_cb` without a buffer: the bytes are passed over, whether they are there or not. */
  method Skip(jd: Jdec, nbyte: nat) returns (n: nat)
    modifies jd`read
    ensures n == nbyte && jd.read == old(jd.read) + n && Stream(jd) == Skipped(old(Stream(jd)), n)
  {
    jd.read := jd.read + nbyte;
    n := nbyte;
  }

  lemma ParseCases(fast: nat, st: State, buf: seq<byte>, s: seq<byte>)
    requires st.Ok() && |buf| >= 16
    ensures |s| < 4 ==> Parse(fast, st, buf, s) == Failed(JDR_INP)
    ensures |s| >= 4 ==>
              var b := s[..4] + buf[4..];
              && (Ldb(b, 0) != 0xFFFF ==> Parse(fast, st, buf, s) == ParseSegment(fast, st, b, Ldb(b, 0), Ldb(b, 2), s[4..]))
              && (Ldb(b, 0) == 0xFFFF && |s| == 4 ==> Parse(fast, st, buf, s) == Failed(JDR_INP))
              && (Ldb(b, 0) == 0xFFFF && |s| > 4 ==>
                    Parse(fast, st, buf, s) == ParseSegment(fast, st, b[4 := s[4]], Ldb(b, 1), Ldb(b[4 := s[4]], 3), s[5..]))
  {
    hide ParseSegment;
  }

  /** A 16-bit word of the input buffer. */
  method LdbWord(jd: Jdec, i: nat) returns (w: nat)
    requires i + 2 <= jd.inbuf.Length
    ensures w == Ldb(jd.inbuf[..], i) && w < 65536
  {
    var high: nat := jd.inbuf[i];
    w := high * 256 + jd.inbuf[i + 1];
  }

  /** The words that the length check looks at are those in the buffer. */
  lemma LengthCases(s: seq<byte>, buf: seq<byte>)
    requires |buf| >= 16
    ensures |s| < 4 ==> LengthsInside(s)
    ensures |s| >= 4 ==>
              var b := s[..4] + buf[4..];
              && (Ldb(b, 0) != 0xFFFF ==> LengthsInside(s) == SegmentInside(Ldb(b, 0), Ldb(b, 2), s[4..]))
              && (Ldb(b, 0) == 0xFFFF && |s| == 4 ==> LengthsInside(s))
              && (Ldb(b, 0) == 0xFFFF && |s| > 4 ==>
                    LengthsInside(s) == SegmentInside(Ldb(b, 1), Ldb(b[4 := s[4]], 3), s[5..]))
  {
    hide SegmentInside;
    if |s| >= 4 {
      var b := s[..4] + buf[4..];
      SameWord(b, s, 0);
      SameWord(b, s, 1);
      SameWord(b, s, 2);
      if |s| > 4 {
        SameWord(b[4 := s[4]], s, 3);
      }
    }
  }

  /** After a skip beyond the end of the image: the next request overruns. */
  predicate Beyond(jd: Jdec)
    reads jd`read
  {
    |jd.indata| < jd.read
  }

  /** The position is inside the image or at most a segment beyond it. */
  predicate Near(jd: Jdec)
    reads jd`read
  {
    jd.read <= |jd.indata| + 65535
  }

  /** The marker and length of the next segment; an FF before a marker is passed over. */
  method ReadMarker(jd: Jdec) returns (rc: int, marker: nat, len: nat)
    requires Parsing(jd) && 16 <= jd.inbuf.Length < 0x1_0000_0000 && Near(jd) && !jd.Overran
    modifies jd`read, jd`Overran, jd.inbuf
    ensures rc == 0 || rc == JDR_INP
    ensures jd.Overran == old(Beyond(jd)) && (jd.Overran ==> rc == JDR_INP)
    ensures !jd.Overran ==> !Beyond(jd) && len < 65536 && |Stream(jd)| <= |old(Stream(jd))| && (rc == 0 ==> |Stream(jd)| < |old(Stream(jd))|)
    ensures !jd.Overran ==> LengthsInside(old(Stream(jd))) == (rc == 0 ==> SegmentInside(marker, len, Stream(jd)))
    ensures Parse(jd.FAST, StateOf(jd), old(jd.inbuf[..]), old(Stream(jd)))
         == if rc == 0 then ParseSegment(jd.FAST, StateOf(jd), jd.inbuf[..], marker, len, Stream(jd)) else Failed(JDR_INP)
  {
    hide Parse, ParseSegment, Parsing, StateOf, Ldb, Stream, LengthsInside, SegmentInside, Granted, Overruns;
    StateIsOk(jd);
    ghost var buf, s := jd.inbuf[..], Stream(jd);
    ParseCases(jd.FAST, StateOf(jd), buf, s);
    LengthCases(s, buf);
    GrantedIs(|jd.indata|, jd.read, 4);
    NothingBeyond(jd);
    marker, len := 0, 0;
    var n := InFunc(jd, 0, 4);
    if n != 4 {
      return JDR_INP, marker, len;
    }
    assert jd.inbuf[..] == s[..4] + buf[4..];
    marker := LdbWord(jd, 0);
    len := LdbWord(jd, 2);
    if marker == 0xFFFF {
      ghost var b := jd.inbuf[..];
      n := InFunc(jd, 4, 1);
      if n != 1 {
        return JDR_INP, marker, len;
      }
      assert jd.inbuf[..] == b[4 := s[4]];
      SameWord(b, b[4 := s[4]], 1);
      marker := LdbWord(jd, 1);
      len := LdbWord(jd, 3);
    }
    return 0, marker, len;
  }

  lemma StreamLength(jd: Jdec)
    requires !Beyond(jd)
    ensures |Stream(jd)| == |jd.indata| - jd.read
  {
  }

  lemma NothingBeyond(jd: Jdec)
    ensures Beyond(jd) ==> Stream(jd) == []
  {
  }

  lemma StateIsOk(jd: Jdec)
    requires Parsing(jd)
    ensures Shaped(jd.tables) && StateOf(jd).Ok()
  {
  }

  lemma SameWord(a: seq<byte>, b: seq<byte>, i: nat)
    requires i + 2 <= |a| && i + 2 <= |b| && a[i] == b[i] && a[i + 1] == b[i + 1]
    ensures Ldb(a, i) == Ldb(b, i)
  {
  }

  /** The content of a segment, to the start of the input buffer. */
  method LoadSegment(jd: Jdec, len: nat) returns (rc: int)
    requires jd.inbuf.Length < 0x1_0000_0000 && !Beyond(jd)
    modifies jd`read, jd`Overran, jd.inbuf
    ensures |Stream(jd)| <= |old(Stream(jd))| && !Beyond(jd) && jd.Overran == old(jd.Overran)
    ensures if len > jd.inbuf.Length then rc == JDR_MEM2
            else if |old(Stream(jd))| < len then rc == JDR_INP
            else rc == 0 && jd.inbuf[..] == old(Stream(jd))[..len] + old(jd.inbuf[..])[len..] && Stream(jd) == old(Stream(jd))[len..]
  {
    hide Stream;
    if len > jd.inbuf.Length {
      return JDR_MEM2;
    }
    ghost var buf := jd.inbuf[..];
    assert buf[..0] == [];
    var n := InFunc(jd, 0, len);
    if n != len {
      return JDR_INP;
    }
    return 0;
  }

  /** A table, frame or restart segment that has been loaded. */
  method ApplySegment(jd: Jdec, m: nat, len: nat) returns (rc: int)
    requires Parsing(jd) && jd.inbuf.Length >= 16 && len <= jd.inbuf.Length && m in {0xC0, 0xC4, 0xDB, 0xDD}
    modifies jd`width, jd`height, jd`ncomp, jd`msx, jd`msy, jd`nrst, jd`qtid, jd`qttbl, jd`tables, jd`loaded, jd`szPool
    ensures match Apply(jd.FAST, old(StateOf(jd)), m, jd.inbuf[..], len)
            case Failed(e) => rc == e && e != 0
            case Done(st) => rc == 0 && Parsing(jd) && StateOf(jd) == st
  {
    hide Sof, HuffTables, QtTables, Built, Specs, Ldb;
    match m {
      case 0xC0 =>
        rc := LoadSof(jd);
      case 0xDD =>
        rc := 0;
        jd.nrst := LdbWord(jd, 0);
      case 0xC4 =>
        rc := CreateHuffmanTbl(jd, jd.inbuf[..len]);
      case 0xDB =>
        rc := CreateQtTbl(jd, jd.inbuf[..len]);
    }
  }

  lemma SegmentCases(fast: nat, st: State, buf: seq<byte>, marker: nat, len: nat, s: seq<byte>)
    requires st.Ok() && |buf| >= 16
    ensures len <= 2 || marker / 256 != 0xFF ==> ParseSegment(fast, st, buf, marker, len, s) == Failed(JDR_FMT1)
    ensures len > 2 && marker / 256 == 0xFF && !Loads(marker % 256) ==>
              ParseSegment(fast, st, buf, marker, len, s)
              == if Unsupported(marker % 256) then Failed(JDR_FMT3) else Parse(fast, st, buf, Skipped(s, len - 2))
    ensures len > 2 && marker / 256 == 0xFF && Loads(marker % 256) && len - 2 > |buf| ==>
              ParseSegment(fast, st, buf, marker, len, s) == Failed(JDR_MEM2)
    ensures len > 2 && marker / 256 == 0xFF && Loads(marker % 256) && |s| < len - 2 <= |buf| ==>
              ParseSegment(fast, st, buf, marker, len, s) == Failed(JDR_INP)
    ensures len > 2 && marker / 256 == 0xFF && Loads(marker % 256) && len - 2 <= |buf| && len - 2 <= |s| ==>
              ParseSegment(fast, st, buf, marker, len, s) == Loaded(fast, st, marker % 256, s[..len - 2] + buf[len - 2..], len - 2, s[len - 2..])
  {
    hide Parse, Apply, Prepare.Sos;
  }

  /** Parsing on from a loaded segment. */
  ghost function Loaded(fast: nat, st: State, m: nat, buf: seq<byte>, n: nat, rest: seq<byte>): Outcome<Prepared>
    requires st.Ok() && |buf| >= 16 && n <= |buf| && Loads(m)
  {
    if m == 0xDA then
      var ready := Prepare.Sos(fast, st, buf);
      if ready.Failed? then Failed(ready.rc) else Done(Prepared(ready.value, rest))
    else
      var next := Apply(fast, st, m, buf, n);
      if next.Failed? then Failed(next.rc) else Parse(fast, next.value, buf, rest)
  }

  /** How the length check goes on behind a segment. */
  lemma InsideCases(marker: nat, len: nat, s: seq<byte>)
    ensures len <= 2 || marker / 256 != 0xFF || Unsupported(marker % 256) || marker % 256 == 0xDA ==> SegmentInside(marker, len, s)
    ensures len > 2 && Loads(marker % 256) && |s| < len - 2 ==> SegmentInside(marker, len, s)
    ensures len > 2 && marker / 256 == 0xFF && !Unsupported(marker % 256) && marker % 256 != 0xDA && len - 2 <= |s| ==>
              SegmentInside(marker, len, s) == LengthsInside(s[len - 2..])
    ensures len > 2 && marker / 256 == 0xFF && !Unsupported(marker % 256) && !Loads(marker % 256) && len - 2 > |s| ==>
              !SegmentInside(marker, len, s)
  {
    hide LengthsInside;
  }

  /** The parser can go on from here without reading beyond the image. */
  ghost predicate GoesOnInside(jd: Jdec)
    requires Shaped(jd.tables) && StateOf(jd).Ok() && jd.inbuf.Length >= 16
    reads jd`width, jd`height, jd`ncomp, jd`msx, jd`msy, jd`nrst, jd`qtid, jd`qttbl, jd`tables, jd`loaded, jd`szPool, jd`read, jd.inbuf
  {
    !Beyond(jd) && (LengthsInside(Stream(jd)) || Parse(jd.FAST, StateOf(jd), jd.inbuf[..], Stream(jd)) != Failed(JDR_INP))
  }

  /** One turn of the segment loop; `ofs` counts the bytes read. */
  method NextSegment(jd: Jdec, ofs0: nat) returns (rc: int, done: bool, ofs: nat)
    requires Parsing(jd) && 16 <= jd.inbuf.Length < 0x1_0000_0000 && Near(jd) && !jd.Overran
    modifies jd`read, jd`Overran, jd.inbuf
    modifies jd`width, jd`height, jd`ncomp, jd`msx, jd`msy, jd`nrst, jd`qtid, jd`qttbl, jd`tables, jd`loaded, jd`szPool
    ensures jd.Overran == old(Beyond(jd)) && (jd.Overran ==> rc != 0)
    ensures rc == 0 ==> Parsing(jd) && Near(jd)
    ensures rc == 0 && !done ==> |Stream(jd)| < |old(Stream(jd))|
    ensures rc == 0 && done ==> !Beyond(jd)
    ensures old(GoesOnInside(jd)) == (if rc != 0 then !jd.Overran else done || GoesOnInside(jd))
    ensures Parse(jd.FAST, old(StateOf(jd)), old(jd.inbuf[..]), old(Stream(jd)))
         == if rc != 0 then Failed(rc)
            else if done then Done(Prepared(StateOf(jd), Stream(jd)))
            else Parse(jd.FAST, StateOf(jd), jd.inbuf[..], Stream(jd))
  {
    hide Parse, ParseSegment, Parsing, StateOf, Ldb, Stream, Apply, Prepare.Sos, Built, Specs, LengthsInside, SegmentInside;
    ofs, done := ofs0, false;
    StateIsOk(jd);
    var marker, len;
    rc, marker, len := ReadMarker(jd);
    if rc != 0 {
      return;
    }
    ghost var st, buf, s := StateOf(jd), jd.inbuf[..], Stream(jd);
    SegmentCases(jd.FAST, st, buf, marker, len, s);
    InsideCases(marker, len, s);
    if len <= 2 || marker / 256 != 0xFF {
      rc := JDR_FMT1;
      return;
    }
    len := len - 2;
    ofs := ofs + 4 + len;
    var m := marker % 256;
    if Unsupported(m) {
      rc := JDR_FMT3;
    } else if !Loads(m) {
      StreamLength(jd);
      ParseCases(jd.FAST, st, buf, []);
      var n := Skip(jd, len);
      if n != len {
        rc := JDR_INP;
      }
    } else {
      rc := LoadSegment(jd, len);
      if rc != 0 {
        return;
      }
      if m == 0xDA {
        done := true;
        rc := LoadSos(jd);
      } else {
        rc := ApplySegment(jd, m, len);
      }
    }
  }

  /** A table that has not been loaded (a null pointer in the source): no codes, and every lookup misses. */
  function Unloaded(ac: bool, fast: nat): CodeTable {
    CodeTable(NoCodes().counts, [], [], if fast == 2 then seq(HUFF_LEN, _ => if ac then 0xFFFF else 0xFF) else [], 0)
  }

  lemma UnloadedTotal(l: nat)
    requires l <= 16
    ensures Total(NoCodes().counts, l) == 0
  {
    if l > 0 {
      UnloadedTotal(l - 1);
    }
  }

  lemma {:induction false} UnloadedSearch(bits: seq<bool>, l: nat)
    requires 1 <= l <= 17
    ensures |NoCodes().vals| == 0 == Total(NoCodes().counts, 16) && Search(NoCodes(), bits, l) == Miss
    decreases 17 - l
  {
    UnloadedTotal(16);
    if l <= 16 {
      UnloadedSearch(bits, l + 1);
    }
  }

  lemma UnloadedBuilt(ac: bool, fast: nat)
    ensures BuiltTable(Unloaded(ac, fast), ac, fast) && Unloaded(ac, fast).Spec() == NoCodes()
  {
    hide Search, Total;
    UnloadedTotal(16);
    UnloadedTotal(10);
    forall w | 0 <= w < HUFF_LEN ensures HuffDecode(NoCodes(), BitsOf(w, 10)) == Miss {
      UnloadedSearch(BitsOf(w, 10), 1);
    }
  }

  /** Clearing the object (`memset`). */
  method Clear(jd: Jdec, szPool: nat)
    modifies jd
    ensures Parsing(jd) && StateOf(jd) == Empty().(szPool := szPool) && jd.read == 0 && !jd.Overran
    ensures jd.dbit == 0 && jd.wreg == 0 && jd.marker == 0 && jd.dctr == 0
  {
    hide Empty, UnloadedTables, Parsing, StateOf;
    jd.dctr, jd.dptr, jd.dbit, jd.wreg, jd.marker := 0, 0, 0, 0, 0;
    jd.dcv, jd.read, jd.Overran := [0, 0, 0], 0, false;
    ClearFrame(jd);
    jd.tables, jd.loaded := UnloadedTables(jd.FAST), [[false, false], [false, false]];
    jd.szPool := szPool;
    UnloadedTablesBuilt(jd.FAST);
    Cleared(jd, szPool);
  }

  method ClearFrame(jd: Jdec)
    modifies jd`width, jd`height, jd`ncomp, jd`msx, jd`msy, jd`nrst, jd`qtid, jd`qttbl
    ensures jd.width == jd.height == jd.ncomp == jd.msx == jd.msy == jd.nrst == 0
    ensures jd.qtid == [0, 0, 0] && jd.qttbl == [[], [], [], []]
  {
    jd.width, jd.height, jd.ncomp, jd.msx, jd.msy, jd.nrst := 0, 0, 0, 0, 0, 0;
    jd.qtid, jd.qttbl := [0, 0, 0], [[], [], [], []];
  }

  lemma Cleared(jd: Jdec, szPool: nat)
    requires jd.width == jd.height == jd.ncomp == jd.msx == jd.msy == jd.nrst == 0
    requires jd.qtid == [0, 0, 0] && jd.qttbl == [[], [], [], []] && jd.loaded == [[false, false], [false, false]]
    requires Shaped(jd.tables) && Built(jd.tables, jd.FAST) && Specs(jd.tables) == Empty().tables && jd.szPool == szPool
    ensures Parsing(jd) && StateOf(jd) == Empty().(szPool := szPool)
  {
    hide Built, Specs, NoCodes;
  }

  /** The input buffer comes first in the pool. */
  method AllocBuffer(jd: Jdec) returns (ok: bool)
    requires Parsing(jd)
    modifies jd`szPool
    ensures match Pool(old(jd.szPool), jd.inbuf.Length)
            case Failed(_) => !ok
            case Done(sz) => ok && Parsing(jd) && StateOf(jd) == old(StateOf(jd)).(szPool := sz)
  {
    hide Built, Specs;
    ok := AllocPool(jd, jd.inbuf.Length);
  }

  function UnloadedTables(fast: nat): seq<seq<CodeTable>> {
    [[Unloaded(false, fast), Unloaded(true, fast)], [Unloaded(false, fast), Unloaded(true, fast)]]
  }

  lemma UnloadedTablesBuilt(fast: nat)
    ensures var tables := UnloadedTables(fast); Shaped(tables) && Built(tables, fast) && Specs(tables) == Empty().tables
  {
    hide BuiltTable, NoCodes, CodeTable.Spec, Unloaded;
    UnloadedBuilt(false, fast);
    UnloadedBuilt(true, fast);
  }

  /** The SOI marker, read byte by byte. */
  method SeekSoi(jd: Jdec) returns (rc: int, ofs: nat)
    requires 16 <= jd.inbuf.Length < 0x1_0000_0000 && !Beyond(jd)
    modifies jd`read, jd`Overran, jd.inbuf
    ensures !Beyond(jd) && jd.Overran == old(jd.Overran)
    ensures match FindSoi(old(Stream(jd)), 0)
            case Failed(e) => rc == e && e != 0
            case Done(rest) => rc == 0 && Stream(jd) == rest && jd.inbuf[..] == [0xD8] + old(jd.inbuf[..])[1..]
  {
    hide Stream;
    ofs := 0;
    var marker: nat := 0;
    ghost var goal := FindSoi(Stream(jd), 0);
    while true
      invariant FindSoi(Stream(jd), marker) == goal && jd.inbuf[1..] == old(jd.inbuf[1..])
      invariant !Beyond(jd) && jd.Overran == old(jd.Overran)
      decreases |Stream(jd)|
    {
      ghost var s := Stream(jd);
      assert jd.inbuf[..][1..] == jd.inbuf[1..];
      var n := InFunc(jd, 0, 1);
      if n != 1 {
        return JDR_INP, ofs;
      }
      ofs := ofs + 1;
      marker := marker % 256 * 256 + jd.inbuf[0];
      assert jd.inbuf[..][1..] == jd.inbuf[1..];
      if marker == 0xFFD8 {
        assert jd.inbuf[..] == [0xD8] + jd.inbuf[1..];
        return 0, ofs;
      }
    }
  }

  // ---------- jd_prepare ----------

  /** The object is ready to decode the scan `rest`: nothing of it is held in the registers yet. */
  ghost predicate Ready(jd: Jdec, rest: seq<byte>)
    reads jd`read, jd`dptr, jd`dctr, jd`dbit, jd`wreg, jd`marker, jd`Held, jd`Data, jd`End, jd.inbuf
  {
    && jd.Base() && jd.Unread() == rest && jd.dbit == 0 && jd.wreg == 0 && jd.marker == 0 && jd.Held == []
    && jd.Data == ByteBits(Unstuff(rest).raw) && jd.End == Unstuff(rest).ending
  }

  /** The stream position is aligned to the input buffer, and the rest of the block is read. */
  method AlignInput(jd: Jdec, ofs0: nat)
    requires 16 <= jd.inbuf.Length < 0x1_0000_0000 && !Beyond(jd) && jd.FAST <= 2 && jd.dctr == 0
    requires jd.dbit == 0 && jd.wreg == 0 && jd.marker == 0
    modifies jd`read, jd`Overran, jd`dptr, jd`dctr, jd`Held, jd`Data, jd`End, jd.inbuf
    ensures Ready(jd, old(Stream(jd))) && jd.Overran == old(jd.Overran)
  {
    hide Unstuff, ByteBits;
    ghost var s := Stream(jd);
    var ofs := ofs0 % jd.inbuf.Length;
    if ofs != 0 {
      jd.dctr := InFunc(jd, ofs, jd.inbuf.Length - ofs);
      assert jd.inbuf[ofs..ofs + jd.dctr] == s[..jd.dctr];
    }
    jd.dptr := ofs - if jd.FAST > 0 then 0 else 1;
    jd.Held := [];
    jd.Data, jd.End := ByteBits(Unstuff(s).raw), Unstuff(s).ending;
  }

  lemma PoolFails(szPool: nat, n: nat)
    ensures Pool(szPool, n).Failed? ==> Pool(szPool, n).rc == JDR_MEM1
  {
  }

  lemma PoolLeft(jd: Jdec, szPool: nat)
    requires Parsing(jd) && StateOf(jd) == Empty().(szPool := szPool)
    ensures jd.szPool == szPool
  {
    hide Built, Specs;
  }

  lemma StreamAtStart(jd: Jdec)
    requires jd.read == 0
    ensures Stream(jd) == jd.indata
  {
  }

  /**
   `jd_prepare`.  It reads beyond the image, or more than it asks for, exactly when a skip leads beyond the end;
   otherwise the outcome is that of the reference.
   */
  method JdPrepare(jd: Jdec, szPool: nat) returns (rc: int)
    requires 16 <= jd.inbuf.Length < 0x1_0000_0000 && jd.FAST <= 2
    modifies jd, jd.inbuf
    ensures jd.Overran <==> !SkipsStayInside(jd.FAST, szPool, old(jd.inbuf[..]), jd.indata)
    ensures jd.Overran ==> rc != 0
    ensures !jd.Overran ==>
              match PrepareImage(jd.FAST, szPool, old(jd.inbuf[..]), jd.indata)
              case Failed(e) => rc == e && e != 0
              case Done(p) => rc == 0 && Parsing(jd) && StateOf(jd) == p.st && Ready(jd, p.rest)
  {
    hide Parse, Parsing, StateOf, Stream, FindSoi, Ready, Empty, Pool, LengthsInside, GoesOnInside;
    PoolFails(szPool, jd.inbuf.Length);
    ghost var goal := PrepareImage(jd.FAST, szPool, jd.inbuf[..], jd.indata);
    ghost var inside := SkipsStayInside(jd.FAST, szPool, jd.inbuf[..], jd.indata);
    Clear(jd, szPool);
    StreamAtStart(jd);
    PoolLeft(jd, szPool);
    var ok := AllocBuffer(jd);
    if !ok {
      return JDR_MEM1;
    }
    var ofs;
    rc, ofs := SeekSoi(jd);
    if rc != 0 {
      return;
    }
    StateIsOk(jd);
    StartsInside(jd, goal);
    var done := false;
    while !done
      invariant jd.FAST <= 2 && jd.dbit == 0 && jd.wreg == 0 && jd.marker == 0 && jd.dctr == 0
      invariant Parsing(jd) && Shaped(jd.tables) && StateOf(jd).Ok() && rc == 0 && !jd.Overran && Near(jd) && (done ==> !Beyond(jd))
      invariant goal == if done then Done(Prepared(StateOf(jd), Stream(jd))) else Parse(jd.FAST, StateOf(jd), jd.inbuf[..], Stream(jd))
      invariant inside == (done || GoesOnInside(jd))
      decreases !done, |Stream(jd)|
    {
      rc, done, ofs := NextSegment(jd, ofs);
      if rc != 0 {
        return;
      }
      StateIsOk(jd);
    }
    AlignInput(jd, ofs);
  }

  lemma StartsInside(jd: Jdec, goal: Outcome<Prepared>)
    requires Shaped(jd.tables) && StateOf(jd).Ok() && jd.inbuf.Length >= 16 && !Beyond(jd)
    requires goal == Parse(jd.FAST, StateOf(jd), jd.inbuf[..], Stream(jd))
    ensures GoesOnInside(jd) == (LengthsInside(Stream(jd)) || goal != Failed(JDR_INP))
  {
  }
}
