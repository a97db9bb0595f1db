/**
 The entropy decoder of the JPEG decompressor: `huffext` and `bitext` in all three `JD_FASTDECODE` builds.
 Build 0 reads bit by bit under a mask, build 1 prefetches into a shift register, build 2 also uses a lookup
 table.  All are proved against one abstract state, the data bits still unread before the marker.
 */
module Decoder {
  import opened Bits
  import opened Stuffing
  import opened Huffman
  import opened HuffmanSearch
  import opened Entropy
  import opened Zigzag
  import opened Scan

  const JDR_INP: int := 2
  const JDR_FMT1: int := 6

  /** A code table of the decompression object: `huffbits`, `huffcode`, `huffdata`, and for build 2 the lookup table. */
  datatype CodeTable = CodeTable(bits: seq<byte>, code: seq<nat>, data: seq<byte>, lut: seq<nat>, longofs: nat) {
    function Spec(): Table {
      Table(bits, data)
    }

    ghost predicate Ok() {
      && Spec().Valid() && |code| == |data|
      && forall k :: 0 <= k < |code| ==> code[k] == Canonical(bits)[k].value
    }

    /** What build 2 needs besides: the table `CreateLut` fills, and an 8-bit offset that still finds the long codes. */
    ghost predicate LutOk(ac: bool) {
      && Ok() && SymbolsFit(ac, data) && |lut| == HUFF_LEN
      && (forall w :: 0 <= w < HUFF_LEN ==> lut[w] == LutEntry(ac, HuffDecode(Spec(), BitsOf(w, 10))))
      && |data| <= 256 && longofs == Total(bits, 10) % 256
    }
  }

  /** The first sixteen bits decide a decode; beyond the marker the fast builds supply ones. */
  ghost function Padded(data: seq<bool>): seq<bool> {
    data + Ones(16)
  }

  /** The data bits are those held, then those of the bytes still to come. */
  ghost predicate Continues(data: seq<bool>, end: Ending, held: seq<bool>, bytes: seq<byte>) {
    data == held + ByteBits(Unstuff(bytes).raw) && end == Unstuff(bytes).ending
  }

  class Jdec {
    // JD_FASTDECODE, a compile-time setting
    const FAST: nat
    // The device: `jpeg_decode_in_cb` copies from a memory image.
    const indata: seq<byte>
    var read: nat
    /** The input callback has copied more than it was asked for, or from beyond the image. */
    ghost var Overran: bool
    const inbuf: array<byte>
    var dptr: int
    var dctr: nat
    var dbit: nat
    var wreg: nat
    var marker: byte
    // The image, from its header.
    var width: nat
    var height: nat
    var ncomp: nat
    var msx: nat
    var msy: nat
    var nrst: nat
    // The bytes left in the working memory.
    var szPool: nat
    // Code tables by number and class (DC, AC), and which have been loaded.
    var tables: seq<seq<CodeTable>>
    var loaded: seq<seq<bool>>
    var dcv: seq<int>
    // The working block, the dequantiser tables and their use by component.
    const workbuf: array<int>
    var qttbl: seq<seq<int>>
    var qtid: seq<nat>
    // The data bits still to be decoded, and how the segment ends.
    ghost var Data: seq<bool>
    ghost var End: Ending
    // Build 0: the bits of `Data` under the mask.
    ghost var Held: seq<bool>

    /** A blank object over a memory image, with its stream buffer and working block. */
    constructor (fast: nat, image: seq<byte>, szBuf: nat)
      ensures FAST == fast && indata == image && inbuf.Length == szBuf
      ensures workbuf.Length == 64 && workbuf as object != inbuf && fresh(inbuf) && fresh(workbuf)
    {
      FAST := fast;
      indata := image;
      inbuf := new byte[szBuf];
      workbuf := new int[64];
    }

    ghost predicate Base()
      reads `read, `dptr, `dctr
    {
      && inbuf.Length > 0 && read <= |indata| && FAST <= 2
      && 0 <= Next() && Next() + dctr <= inbuf.Length
      && (FAST == 0 ==> -1 <= dptr)
    }

    /** Index of the next unread byte: build 0 keeps `dptr` on the current byte, the others on the next one. */
    function Next(): int
      reads `dptr
    {
      if FAST == 0 then dptr + 1 else dptr
    }

    /** The bytes not yet taken from the buffer or the device. */
    ghost function Unread(): seq<byte>
      requires Base()
      reads `read, `dptr, `dctr, inbuf
    {
      inbuf[Next()..Next() + dctr] + indata[read..]
    }

    /** Build 0: the mask `dbit` stands for the low bits of the current byte that are still unread. */
    ghost predicate Masked(held: seq<bool>)
      requires Base()
      reads `dptr, `dbit, `read, `dctr, inbuf
    {
      && |held| <= 8 && dbit == Pow2(|held|) / 2
      && (|held| > 0 ==> 0 <= dptr < inbuf.Length && held == BitsOf(inbuf[dptr], |held|))
    }

    /** The rest of the segment after the bits already held. */
    ghost predicate Follows(held: seq<bool>)
      requires Base()
      reads `read, `dptr, `dctr, inbuf, `Data, `End
    {
      Continues(Data, End, held, Unread())
    }

    /** Fills the input buffer (`infunc(jd, inbuf, JD_SZBUF)`). */
    method InFunc() returns (n: nat)
      requires inbuf.Length > 0 && read <= |indata|
      modifies `read, inbuf
      ensures read <= |indata| && read == old(read) + n && n <= inbuf.Length
      ensures n == 0 <==> old(read) == |indata|
      ensures inbuf[..n] + indata[read..] == indata[old(read)..]
    {
      n := inbuf.Length;
      if read + n > |indata| {
        n := |indata| - read;
      }
      for i := 0 to n
        invariant read == old(read) && inbuf[..i] == indata[read..read + i]
      {
        inbuf[i] := indata[read + i];
      }
      read := read + n;
    }

    /** Takes the next byte as build 0 does: `dptr` comes to rest on it. */
    method NextByte0() returns (ok: bool)
      requires Base() && FAST == 0
      modifies `read, `dptr, `dctr, inbuf
      ensures Base() && ok == (|old(Unread())| > 0)
      ensures ok ==> 0 <= dptr < inbuf.Length && inbuf[dptr] == old(Unread())[0] && Unread() == old(Unread())[1..]
    {
      ok := Advance();
      if ok {
        ghost var buffered := inbuf[dptr..dptr + dctr];
        TakeFirst(buffered, indata[read..], buffered + indata[read..]);
        assert inbuf[dptr + 1..dptr + dctr] == buffered[1..];
        dctr := dctr - 1;
      }
    }

    /** Moves `dptr` to the next byte, reading the next block when the buffer is used up. */
    method Advance() returns (ok: bool)
      requires Base() && FAST == 0
      modifies `read, `dptr, `dctr, inbuf
      ensures read <= |indata| && -1 <= dptr && (!ok ==> Base()) && ok == (|old(Unread())| > 0)
      ensures ok ==> 0 < dctr && 0 <= dptr && dptr + dctr <= inbuf.Length
      ensures ok ==> old(Unread()) == inbuf[dptr..dptr + dctr] + indata[read..]
    {
      ok := true;
      if dctr == 0 {
        assert Unread() == indata[read..];
        dptr := 0;
        dctr := InFunc();
        ok := dctr != 0;
      } else {
        dptr := dptr + 1;
      }
    }

    /** Takes the next byte as builds 1 and 2 do: `dptr` moves past it. */
    method NextByte1() returns (ok: bool, d: byte)
      requires Base() && FAST > 0
      modifies `read, `dptr, `dctr, inbuf
      ensures Base() && ok == (|old(Unread())| > 0)
      ensures ok ==> d == old(Unread())[0] && Unread() == old(Unread())[1..]
    {
      d := 0;
      ok := Refill();
      if ok {
        ghost var rest := Unread();
        ghost var buffered := inbuf[dptr..dptr + dctr];
        TakeFirst(buffered, indata[read..], rest);
        assert inbuf[dptr + 1..dptr + dctr] == buffered[1..];
        d := inbuf[dptr];
        dptr := dptr + 1;
        dctr := dctr - 1;
      }
    }

    /** Reads the next block when the buffer is used up. */
    method Refill() returns (ok: bool)
      requires Base() && FAST > 0
      modifies `read, `dptr, `dctr, inbuf
      ensures Base() && ok == (|old(Unread())| > 0) && (ok ==> dctr > 0 && Unread() == old(Unread()))
    {
      ok := true;
      if dctr == 0 {
        assert Unread() == indata[read..];
        dptr := 0;
        dctr := InFunc();
        ok := dctr != 0;
      }
    }
  
    // ---------- build 0: bit by bit ----------

    ghost predicate Valid0()
      reads `read, `dptr, `dctr, `dbit, inbuf, `Data, `End, `Held
    {
      FAST == 0 && Base() && Masked(Held) && Follows(Held)
    }

    /** Loads the next data octet; a stuffed FF is put into the buffer in place of its zero. */
    method LoadOctet() returns (status: int)
      requires FAST == 0 && Base() && Follows([])
      modifies `read, `dptr, `dctr, inbuf
      ensures Base() && (status == 0 <==> |Data| > 0)
      ensures status == 0 ==> 0 <= dptr < inbuf.Length && Follows(BitsOf(inbuf[dptr], 8))
      ensures status != 0 ==> status == if End.Marker? then JDR_FMT1 else JDR_INP
    {
      hide BitsOf, Continues;
      ghost var rest := Unread();
      OctetCases(Data, End, rest);
      var ok := NextByte0();
      if !ok {
        return JDR_INP;
      }
      if inbuf[dptr] == 0xFF {
        ok := NextByte0();
        if !ok {
          return JDR_INP;
        }
        if inbuf[dptr] != 0 {
          return JDR_FMT1;
        }
        inbuf[dptr] := 0xFF;
        assert Unread() == rest[2..];
      }
      return 0;
    }

    /** One data bit: `if (*dp & bm) ...; bm >>= 1`, after loading an octet when the mask is used up. */
    method ReadBit() returns (status: int, b: bool)
      requires Valid0()
      modifies `read, `dptr, `dctr, `dbit, inbuf, `Data, `Held
      ensures status == 0 <==> |old(Data)| > 0
      ensures status == 0 ==> Valid0() && b == old(Data)[0] && Data == old(Data)[1..]
      ensures status != 0 ==> status == if End.Marker? then JDR_FMT1 else JDR_INP
    {
      hide BitsOf, Unstuff, ByteBits, Pow2;
      b := false;
      MaskZero(|Held|);
      if dbit == 0 {
        status := LoadOctet();
        if status != 0 {
          return;
        }
        dbit := 0x80;
        Held := BitsOf(inbuf[dptr], 8);
      }
      MaskBit(inbuf[dptr], |Held|);
      b := (inbuf[dptr] / dbit) % 2 == 1;
      dbit := dbit / 2;
      DropFirst(Held, ByteBits(Unstuff(Unread()).raw));
      Held := Held[1..];
      Data := Data[1..];
      status := 0;
    }
  
    /** The code search over one length, from table position `ic0`. */
    method FindCode(tb: CodeTable, l: nat, ic0: nat, d: nat) returns (found: bool, ic: nat)
      requires tb.Ok() && 1 <= l <= 16 && ic0 == Total(tb.bits, l - 1)
      ensures var c := FirstCode(tb.bits, l);
              && (found <==> c <= d < c + tb.bits[l - 1])
              && ic == Total(tb.bits, l - 1) + (if found then d - c else tb.bits[l - 1])
      ensures found ==> ic < |tb.data|
      ensures !found ==> ic == Total(tb.bits, l)
    {
      ghost var c := FirstCode(tb.bits, l);
      TotalMonotone(tb.bits, l, 16);
      ic, found := ic0, false;
      var nd := tb.bits[l - 1];
      while nd > 0
        invariant 0 <= nd <= tb.bits[l - 1] && ic == ic0 + (tb.bits[l - 1] - nd)
        invariant !(c <= d < c + (tb.bits[l - 1] - nd))
      {
        CodesAt(tb.bits, 16, l, ic - ic0);
        if d == tb.code[ic] {
          found := true;
          return;
        }
        ic := ic + 1;
        nd := nd - 1;
      }
    }

    /** What a failed read reports: a marker is unexpected data, running out of input is a device error. */
    ghost function Failure(data: seq<bool>): int
      reads `End
    {
      if |data| >= 16 || End.Marker? then JDR_FMT1 else JDR_INP
    }

    /** `huffext` of build 0: decodes exactly when the data bits start with a code word. */
    method Huffext0(tb: CodeTable) returns (r: int)
      requires Valid0() && tb.Ok()
      modifies `read, `dptr, `dctr, `dbit, inbuf, `Data, `Held
      ensures match HuffDecode(tb.Spec(), old(Data))
              case Miss => r == -Failure(old(Data))
              case Hit(sym, len) => r == sym && len <= |old(Data)| && Data == old(Data)[len..] && Valid0()
    {
      hide ValueOf, FirstCode, Total, Search, Valid0;
      ghost var data, t := Data, tb.Spec();
      TableFacts(tb);
      Decodes(t, data);
      var d, ic, bl := 0, 0, 16;
      SearchStart(tb.bits);
      while bl > 0
        invariant 0 <= bl <= 16 && 16 - bl <= |data| && Data == data[16 - bl..] && Valid0()
        invariant d == ValueOf(data[..16 - bl]) && ic == Total(tb.bits, 16 - bl)
        invariant Search(t, data, 1) == Search(t, data, 17 - bl)
      {
        var l := 17 - bl;
        var status, b := ReadBit();
        if status != 0 {
          SearchShort(t, data, l);
          return -status;
        }
        SearchStep(t, data, l);
        ValueStep(data, l);
        d := 2 * d + if b then 1 else 0;
        var found;
        found, ic := FindCode(tb, l, ic, d);
        if found {
          return tb.data[ic];
        }
        bl := bl - 1;
      }
      SearchShort(t, data, 17);
      return -JDR_FMT1;
    }

    /** `bitext` of build 0 (`nbit` is 1 to 16). */
    method Bitext0(nbit0: nat) returns (r: int)
      requires Valid0() && 1 <= nbit0 <= 16
      modifies `read, `dptr, `dctr, `dbit, inbuf, `Data, `Held
      ensures if nbit0 <= |old(Data)| then r == ValueOf(old(Data)[..nbit0]) && Data == old(Data)[nbit0..] && Valid0()
              else r == -(if End.Marker? then JDR_FMT1 else JDR_INP)
    {
      hide ValueOf, Valid0;
      ghost var data := Data;
      SearchStart([]);
      var d, nbit := 0, nbit0;
      while nbit > 0
        invariant 0 <= nbit <= nbit0 && nbit0 - nbit <= |data| && Data == data[nbit0 - nbit..] && Valid0()
        invariant d == ValueOf(data[..nbit0 - nbit])
      {
        var status, b := ReadBit();
        if status != 0 {
          return -status;
        }
        ValueStep(data, nbit0 - nbit + 1);
        d := 2 * d + if b then 1 else 0;
        nbit := nbit - 1;
      }
      return d;
    }
  
    // ---------- builds 1 and 2: prefetching ----------

    /**
     The register holds the window `w`.  Until a marker has been read every bit of it is data; afterwards the
     data ends inside it and the rest are the ones fed in for the stalled stream.
     */
    ghost predicate Windowed(w: seq<bool>)
      requires Base()
      reads `read, `dptr, `dctr, inbuf, `Data, `End, `marker
    {
      if marker == 0 then Follows(w) else PaddedBy(Data, w) && End == Marker(marker)
    }

    ghost predicate Valid1()
      reads `read, `dptr, `dctr, inbuf, `Data, `End, `marker, `wreg, `dbit
    {
      FAST > 0 && Base() && dbit < 24 && Windowed(BitsOf(wreg, dbit))
    }

    /** One more octet for the register: data, or ones once the stream has stalled at a marker. */
    method FetchOctet(ghost w: seq<bool>) returns (ok: bool, d: byte)
      requires FAST > 0 && Base() && Windowed(w)
      modifies `read, `dptr, `dctr, inbuf, `marker
      ensures Base()
      ensures ok ==> Windowed(w + BitsOf(d, 8))
      ensures !ok ==> Data == w && !End.Marker?
    {
      hide BitsOf, Continues, Unread;
      if marker != 0 {
        ok, d := true, 0xFF;
        PadMore(Data, w);
        return;
      }
      WindowCases(Data, End, w, Unread());
      ok, d := NextByte1();
      if ok && d == 0xFF {
        ok, d := NextByte1();
        if ok {
          if d != 0 {
            marker := d;
            PadMore(Data, w);
          }
          d := 0xFF;
        }
      }
    }

    /** Brings at least `need` bits into the register. */
    method Prepare(need: nat) returns (ok: bool, w: nat, wbit: nat)
      requires Valid1() && need <= 16
      modifies `read, `dptr, `dctr, inbuf, `marker
      ensures ok ==> FAST > 0 && Base() && need <= wbit < 24 && w < Pow2(wbit) && Windowed(BitsOf(w, wbit))
      ensures !ok ==> |Data| < need && !End.Marker?
    {
      hide BitsOf, Continues, Unread, Windowed, BitOr, Pow2;
      wbit := dbit % 32;
      w := wreg % Pow2(wbit);
      BitsOfMod(wreg, wbit);
      ModBound(wreg, Pow2(wbit));
      while wbit < need
        invariant Base() && w < Pow2(wbit) && wbit < 24 && Windowed(BitsOf(w, wbit))
        decreases need - wbit
      {
        var d;
        ok, d := FetchOctet(BitsOf(w, wbit));
        if !ok {
          return;
        }
        ShiftInOctet(w, wbit, d);
        w := BitOr(w * 256, d);
        wbit := wbit + 8;
      }
      ok := true;
    }

    /** Snips `len` bits off the register. */
    method Snip(w: nat, wbit: nat, len: nat)
      requires FAST > 0 && Base() && len <= wbit < 24 && Windowed(BitsOf(w, wbit))
      modifies `wreg, `dbit, `Data
      ensures Valid1() && Data == Dropped(old(Data), len)
    {
      hide BitsOf, Continues, Unread;
      BitsOfSuffix(w, wbit, len);
      SnipWindow(Data, End, BitsOf(w, wbit), len, Unread());
      wreg := w;
      dbit := wbit - len;
      Data := Dropped(Data, len);
    }

    /** The window agrees with the padded data on its first `n` bits. */
    lemma WindowIsPadded(w: seq<bool>, n: nat)
      requires Base() && Windowed(w) && n <= 16 && n <= |w|
      ensures n <= |Padded(Data)| && Padded(Data)[..n] == w[..n]
    {
    }

    /** The fast builds run short of input only without a marker. */
    ghost predicate Short(data: seq<bool>, n: nat)
      reads `End
    {
      !End.Marker? && |data| < n
    }

    /** `huffext` of build 1. */
    method Huffext1(tb: CodeTable) returns (r: int)
      requires Valid1() && tb.Ok()
      modifies `read, `dptr, `dctr, `dbit, inbuf, `Data, `marker, `wreg
      ensures if Short(old(Data), 16) then r == -JDR_INP else
              match HuffDecode(tb.Spec(), Padded(old(Data)))
              case Miss => r == -JDR_FMT1
              case Hit(sym, len) => r == sym && Data == Dropped(old(Data), len) && Valid1()
    {
      hide ValueOf, BitsOf, FirstCode, Total, Search, Windowed, Pow2, Valid1, Base;
      ghost var data, t := Data, tb.Spec();
      TableFacts(tb);
      var ok, w, wbit := Prepare(16);
      if !ok {
        return -JDR_INP;
      }
      ghost var win := BitsOf(w, wbit);
      WindowIsPadded(win, 16);
      SamePrefix(t, win, Padded(data));
      NotShort(win);
      SearchStart(tb.bits);
      var ic := 0;
      for bl := 1 to 17
        invariant ic == Total(tb.bits, bl - 1) && Search(t, win, 1) == Search(t, win, bl)
        invariant FAST > 0 && Base() && Windowed(win) && Data == data && win == BitsOf(w, wbit)
      {
        SearchStep(t, win, bl);
        TopBits(w, wbit, bl);
        TotalStep(tb.bits, bl);
        var nc := tb.bits[bl - 1];
        if nc != 0 {
          var d := w / Pow2(wbit - bl);
          var found;
          found, ic := FindCode(tb, bl, ic, d);
          if found {
            Snip(w, wbit, bl);
            return tb.data[ic];
          }
        }
      }
      SearchShort(t, win, 17);
      return -JDR_FMT1;
    }

    /** `huffext` of build 2: the lookup table first, then the codes longer than ten bits. */
    method Huffext2(tb: CodeTable, ac: bool) returns (r: int)
      requires Valid1() && tb.LutOk(ac)
      modifies `read, `dptr, `dctr, `dbit, inbuf, `Data, `marker, `wreg
      ensures if Short(old(Data), 16) then r == -JDR_INP else
              match HuffDecode(tb.Spec(), Padded(old(Data)))
              case Miss => r == -JDR_FMT1
              case Hit(sym, len) => r == sym && Data == Dropped(old(Data), len) && Valid1()
    {
      hide ValueOf, BitsOf, FirstCode, Total, Search, Windowed, Pow2, Valid1, Base, LutEntry;
      ghost var data, t := Data, tb.Spec();
      TableFacts(tb);
      var ok, w, wbit := Prepare(16);
      if !ok {
        return -JDR_INP;
      }
      ghost var win := BitsOf(w, wbit);
      WindowIsPadded(win, 16);
      SamePrefix(t, win, Padded(data));
      NotShort(win);
      TopBits(w, wbit, 10);
      LutHit(tb, ac, win);
      var d := tb.lut[w / Pow2(wbit - 10)];
      if ac && d != 0xFFFF {
        Snip(w, wbit, d / 256);
        return d % 256;
      } else if !ac && d != 0xFF {
        Snip(w, wbit, d / 16);
        return d % 16;
      }
      var ic := tb.longofs;
      for bl := 11 to 17
        invariant Total(tb.bits, bl - 1) == Total(tb.bits, 16) || ic == Total(tb.bits, bl - 1)
        invariant Search(t, win, 1) == Search(t, win, bl)
        invariant FAST > 0 && Base() && Windowed(win) && Data == data && win == BitsOf(w, wbit)
      {
        SearchStep(t, win, bl);
        TopBits(w, wbit, bl);
        TotalStep(tb.bits, bl);
        TotalMonotone(tb.bits, bl, 16);
        var nc := tb.bits[bl - 1];
        if nc != 0 {
          var found;
          found, ic := FindCode(tb, bl, ic, w / Pow2(wbit - bl));
          if found {
            Snip(w, wbit, bl);
            return tb.data[ic];
          }
        }
      }
      SearchShort(t, win, 17);
      return -JDR_FMT1;
    }

    /** `bitext` of builds 1 and 2. */
    method Bitext1(nbit: nat) returns (r: int)
      requires Valid1() && 1 <= nbit <= 16
      modifies `read, `dptr, `dctr, `dbit, inbuf, `Data, `marker, `wreg
      ensures if Short(old(Data), nbit) then r == -JDR_INP
              else r == ValueOf(Padded(old(Data))[..nbit]) && Data == Dropped(old(Data), nbit) && Valid1()
    {
      hide ValueOf, BitsOf, Windowed, Pow2, Valid1, Base;
      var ok, w, wbit := Prepare(nbit);
      if !ok {
        return -JDR_INP;
      }
      WindowIsPadded(BitsOf(w, wbit), nbit);
      WindowNotShort(BitsOf(w, wbit), nbit);
      TopBits(w, wbit, nbit);
      Snip(w, wbit, nbit);
      return w / Pow2((wbit - nbit) % 32);
    }

    lemma WindowNotShort(w: seq<bool>, n: nat)
      requires Base() && Windowed(w) && |w| >= n
      ensures !Short(Data, n)
    {
    }

    // ---------- the reader mcu_load uses ----------

    ghost predicate Valid()
      reads `read, `dptr, `dctr, inbuf, `Data, `End, `marker, `wreg, `dbit, `Held
    {
      if FAST == 0 then Valid0() else Valid1()
    }

    ghost predicate TablesOk()
      reads `tables
    {
      && FAST <= 2 && |tables| == 2 && |tables[0]| == 2 && |tables[1]| == 2
      && forall id, cls :: 0 <= id < 2 && 0 <= cls < 2 ==>
           && tables[id][cls].Ok() && SymbolsFit(cls == 1, tables[id][cls].data)
           && (FAST == 2 ==> tables[id][cls].LutOk(cls == 1))
    }

    /** The data bits as the build sees them: the fast builds continue them with ones. */
    ghost function Seen(data: seq<bool>): seq<bool> {
      if FAST == 0 then data else Padded(data)
    }

    /** `huffext`: whichever build, a code word within the data decodes to its symbol and uses just its bits. */
    method Huffext(id: nat, cls: nat) returns (r: int)
      requires Valid() && TablesOk() && id < 2 && cls < 2
      modifies `read, `dptr, `dctr, `dbit, inbuf, `Data, `marker, `wreg, `Held
      ensures tables[id][cls].Ok()
      ensures if FAST > 0 && Short(old(Data), 16) then r == -JDR_INP else
              match HuffDecode(tables[id][cls].Spec(), Seen(old(Data)))
              case Miss => r == if FAST == 0 then -Failure(old(Data)) else -JDR_FMT1
              case Hit(sym, len) => r == sym && Data == Dropped(old(Data), len) && Valid()
    {
      hide HuffDecode, Valid0, Valid1;
      if FAST == 0 {
        r := Huffext0(tables[id][cls]);
      } else if FAST == 1 {
        r := Huffext1(tables[id][cls]);
      } else {
        r := Huffext2(tables[id][cls], cls == 1);
      }
    }

    /** `bitext`. */
    method Bitext(nbit: nat) returns (r: int)
      requires Valid() && 1 <= nbit <= 16
      modifies `read, `dptr, `dctr, `dbit, inbuf, `Data, `marker, `wreg, `Held
      ensures if nbit <= |Seen(old(Data))| && !(FAST > 0 && Short(old(Data), nbit))
              then r == ValueOf(Seen(old(Data))[..nbit]) && Data == Dropped(old(Data), nbit) && Valid()
              else r == -(if End.Marker? then JDR_FMT1 else JDR_INP)
    {
      hide ValueOf, Valid0, Valid1;
      if FAST == 0 {
        r := Bitext0(nbit);
      } else {
        r := Bitext1(nbit);
      }
    }

    lemma NotShort(w: seq<bool>)
      requires Base() && Windowed(w) && |w| >= 16
      ensures !Short(Data, 16)
    {
    }
  
    // ---------- mcu_load: one block ----------

    /** The DC and AC tables of a component class. */
    ghost function CoderAt(id: nat): Coder
      requires TablesOk() && id < 2
      reads `tables
    {
      Coder(tables[id][0].Spec(), tables[id][1].Spec())
    }

    lemma CoderFacts(id: nat)
      requires TablesOk() && id < 2
      ensures CoderAt(id).Valid()
      ensures tables[id][0].Ok() && tables[id][1].Ok() && CoderAt(id).dc == tables[id][0].Spec() && CoderAt(id).ac == tables[id][1].Spec()
      ensures SymbolsFit(false, CoderAt(id).dc.vals)
    {
    }

    /** A symbol within the data is decoded alike by every build; build 0 decodes nothing else. */
    lemma SeenSymbol(t: Table, data: seq<bool>)
      requires t.Valid()
      ensures |t.counts| == 16 && |t.vals| == Total(t.counts, 16)
      ensures match ReadSymbol(t, data)
              case Got(s, rest) => var h := HuffDecode(t, Seen(data)); h.Hit? && h.sym == s && rest == Dropped(data, h.len)
              case Bad => FAST == 0 ==> HuffDecode(t, Seen(data)).Miss?
      ensures var h := HuffDecode(t, Seen(data)); h.Hit? ==> h.sym in t.vals
    {
      hide Search, ValueOf;
      SearchExtend(t, data, Ones(16), 1);
      if HuffDecode(t, Seen(data)).Hit? {
        var k := HitIsWord(t, Seen(data), 1);
      }
    }

    lemma SeenValue(n: nat, data: seq<bool>)
      requires 1 <= n <= 16
      ensures n <= |Seen(data)| ==> (FAST == 0 ==> n <= |data|)
      ensures n <= |data| ==> n <= |Seen(data)| && Seen(data)[..n] == data[..n] && Dropped(data, n) == data[n..]
      ensures FAST > 0 ==> n <= |Seen(data)|
    {
    }

    /** Builds 1 and 2 need the scan to end at a marker; build 0 does not read ahead. */
    ghost predicate Steady()
      reads `End
    {
      FAST == 0 || End.Marker?
    }

    /** A value with its sign restored (`bitext`, then the MSB test). */
    method ReadSigned(bc: nat) returns (ok: bool, e: int, error: int)
      requires Valid() && 1 <= bc <= 16
      modifies `read, `dptr, `dctr, `dbit, inbuf, `Data, `marker, `wreg, `Held
      ensures if ok then Valid() else error > 0
      ensures match ReadValue(bc, old(Data))
              case Got(v, rest) => Steady() ==> ok && e == v && Data == rest
              case Bad => FAST == 0 ==> !ok
    {
      hide Valid, ValueOf, Padded;
      SeenValue(bc, Data);
      e := Bitext(bc);
      ok, error := e >= 0, -e;
      if ok && e / Pow2(bc - 1) % 2 == 0 {
        e := e - (Pow2(bc) - 1);
      }
    }

    ghost predicate DcvOk()
      reads `dcv
    {
      |dcv| == 3 && forall c :: 0 <= c < 3 ==> Int16(dcv[c]) == dcv[c]
    }

    /** The DC element of a block; `dcv` is an `int16_t`. */
    method LoadDc(cmp: nat, id: nat) returns (rc: int, d: int)
      requires Valid() && TablesOk() && cmp < 3 && id < 2 && DcvOk()
      modifies `read, `dptr, `dctr, `dbit, inbuf, `Data, `marker, `wreg, `Held, `dcv
      ensures DcvOk() && CoderAt(id).Valid() && rc >= 0
      ensures rc == 0 ==> Valid() && dcv == old(dcv)[cmp := Int16(d)]
      ensures match ReadDc(CoderAt(id).dc, old(Data), old(dcv)[cmp])
              case Got(v, rest) => Steady() ==> rc == 0 && d == v && Data == rest
              case Bad => FAST == 0 ==> rc != 0
    {
      hide Valid, HuffDecode, ReadValue, ReadSymbol, Seen, Int16;
      CoderFacts(id);
      SeenSymbol(CoderAt(id).dc, Data);
      Int16Int16(0);
      rc := 0;
      d := dcv[cmp];
      var bc := Huffext(id, 0);
      if bc < 0 {
        return -bc, d;
      }
      if bc != 0 {
        var ok, e, error := ReadSigned(bc);
        if !ok {
          return error, d;
        }
        d := d + e;
        Int16Int16(d);
        dcv := dcv[cmp := Int16(d)];
      } else {
        ReadNothing(Data);
      }
    }
  
    /** What one AC symbol does, for every build. */
    lemma AcStep(t: Table, data: seq<bool>, z: nat, cur: Block)
      requires t.Valid() && z < 64
      ensures |t.counts| == 16 && |t.vals| == Total(t.counts, 16)
      ensures match ReadSymbol(t, data)
              case Bad => ReadAc(t, data, z, cur) == Bad
              case Got(s, rest) =>
                ReadAc(t, data, z, cur)
                == if s == 0 then Got(cur, rest)
                   else if z + s / 16 >= 64 then Bad
                   else if s % 16 == 0 then ReadAc(t, rest, z + s / 16 + 1, cur)
                   else match ReadValue(s % 16, rest)
                        case Bad => Bad
                        case Got(v, rest') => ReadAc(t, rest', z + s / 16 + 1, cur[z + s / 16 := v])
    {
      hide ReadSymbol, ReadValue;
    }

    /** Where the reader's result matters: always in build 0, and for a readable block before a marker in the others. */
    ghost predicate Bound<T>(goal: Read<T>)
      reads `End
    {
      FAST == 0 || (Steady() && goal.Got?)
    }

    /** The AC elements of a block, dequantised in place in raster order. */
    method LoadAc(id: nat, tmp: array<int>, dqf: seq<int>, ghost blk0: Block) returns (rc: int, ghost blk: Block)
      requires Valid() && TablesOk() && id < 2 && tmp.Length == 64 && |dqf| == 64 && Dequantized(tmp[..], dqf, blk0)
      requires tmp as object != inbuf
      modifies `read, `dptr, `dctr, `dbit, inbuf, `Data, `marker, `wreg, `Held, tmp
      ensures CoderAt(id).Valid() && rc >= 0 && (rc == 0 ==> Valid() && Dequantized(tmp[..], dqf, blk))
      ensures match ReadAc(CoderAt(id).ac, old(Data), 1, blk0)
              case Got(b, rest) => Steady() ==> rc == 0 && blk == b && Data == rest
              case Bad => FAST == 0 ==> rc != 0
    {
      hide Valid, HuffDecode, ReadValue, ReadSymbol, ReadAc, Seen, Dequantized, SymbolsFit, Total;
      CoderFacts(id);
      ghost var t := CoderAt(id).ac;
      TableShape(t);
      ghost var goal := ReadAc(t, Data, 1, blk0);
      blk := blk0;
      var z := 1;
      while z < 64
        invariant 1 <= z && Valid() && Dequantized(tmp[..], dqf, blk)
        invariant Bound(goal) ==> ReadAc(t, Data, z, blk) == goal
        decreases 64 - z
      {
        SeenSymbol(t, Data);
        AcStep(t, Data, z, blk);
        var d := Huffext(id, 1);
        if d == 0 {
          return 0, blk;
        }
        if d < 0 {
          return -d, blk;
        }
        z := z + d / 16;
        if z >= 64 {
          return JDR_FMT1, blk;
        }
        if d % 16 != 0 {
          var ok, v, error := ReadSigned(d % 16);
          if !ok {
            return error, blk;
          }
          StoreCoefficient(tmp[..], dqf, blk, z, v);
          tmp[Zig(z)] := Dequantize(v, dqf[Zig(z)]);
          blk := blk[z := v];
        }
        z := z + 1;
      }
      ReadAcDone(t, Data, z, blk);
      return 0, blk;
    }
  
    ghost predicate QuantOk()
      reads `qttbl, `qtid
    {
      && |qtid| == 3 && workbuf.Length == 64 && workbuf as object != inbuf
      && forall c :: 0 <= c < 3 ==> qtid[c] < |qttbl| && |qttbl[qtid[c]]| == 64
    }

    /** The dequantised DC element, and `memset` of the rest. */
    method StartBlock(d: int, dqf: seq<int>)
      requires workbuf.Length == 64 == |dqf|
      modifies workbuf
      ensures Dequantized(workbuf[..], dqf, ZeroBlock[0 := d])
    {
      workbuf[0] := Dequantize(d, dqf[0]);
      for i := 1 to 64
        invariant workbuf[0] == Dequantize(d, dqf[0]) && forall k :: 1 <= k < i ==> workbuf[k] == 0
      {
        workbuf[i] := 0;
      }
      hide Dequantized;
      DcOnly(workbuf[..], dqf, d);
    }

    lemma BlockCases(c: Coder, bits: seq<bool>, pred: int)
      requires c.Valid()
      ensures |c.dc.counts| == 16 && |c.dc.vals| == Total(c.dc.counts, 16)
      ensures |c.ac.counts| == 16 && |c.ac.vals| == Total(c.ac.counts, 16)
      ensures match ReadDc(c.dc, bits, pred)
              case Bad => ReadBlock(c, bits, pred) == Bad
              case Got(d, rest) =>
                var r := ReadAc(c.ac, rest, 1, ZeroBlock[0 := d]);
                ReadBlock(c, bits, pred) == r && (r.Got? ==> r.value[0] == d)
    {
      hide ReadDc, ReadAc, ZeroBlock;
      match ReadDc(c.dc, bits, pred)
      case Bad =>
      case Got(d, rest) => ReadAcKeepsDc(c.ac, rest, 1, ZeroBlock[0 := d]);
    }

    /** One block of component `cmp`, dequantised into the working block. */
    method LoadBlock(cmp: nat, id: nat) returns (rc: int, ghost blk: Block)
      requires Valid() && TablesOk() && QuantOk() && DcvOk() && cmp < 3 && id < 2
      modifies `read, `dptr, `dctr, `dbit, inbuf, `Data, `marker, `wreg, `Held, `dcv, workbuf
      ensures DcvOk() && rc >= 0 && CoderAt(id).Valid()
      ensures rc == 0 ==> Valid() && Dequantized(workbuf[..], qttbl[qtid[cmp]], blk)
      ensures match ReadBlock(CoderAt(id), old(Data), old(dcv)[cmp])
              case Got(b, rest) => Steady() ==> rc == 0 && blk == b && Data == rest && dcv == old(dcv)[cmp := Int16(b[0])]
              case Bad => FAST == 0 ==> rc != 0
    {
      hide Valid, ReadDc, ReadAc, Int16, TablesOk, Dequantized, ReadBlock, ZeroBlock, DcvOk;
      blk := ZeroBlock;
      DcvLength();
      ghost var before := Data;
      var d;
      rc, d := LoadDc(cmp, id);
      BlockCases(CoderAt(id), before, old(dcv)[cmp]);
      if rc == 0 {
        StartBlock(d, qttbl[qtid[cmp]]);
        rc, blk := LoadAc(id, workbuf, qttbl[qtid[cmp]], ZeroBlock[0 := d]);
      }
    }

    lemma DcvLength()
      requires DcvOk()
      ensures |dcv| == 3
    {
    }
  
    // ---------- mcu_load and jd_decomp ----------

    ghost function Coders(): (cs: seq<Coder>)
      requires TablesOk()
      reads `tables
      ensures CodersOk(cs)
    {
      CoderFacts(0);
      CoderFacts(1);
      [CoderAt(0), CoderAt(1)]
    }

    lemma ReadScanCases(cmp: nat, id: nat, comps: seq<nat>, bits: seq<bool>, pred: seq<int>)
      requires TablesOk() && cmp < 3 && id == (if cmp == 0 then 0 else 1)
      requires |pred| == 3 && (forall i :: 0 <= i < |comps| ==> comps[i] < 3) && |comps| > 0 && comps[0] == cmp
      ensures CoderAt(id).Valid() && CoderAt(id) == CoderOf(Coders(), cmp)
      ensures |CoderAt(id).dc.counts| == 16 && |CoderAt(id).dc.vals| == Total(CoderAt(id).dc.counts, 16)
      ensures |CoderAt(id).ac.counts| == 16 && |CoderAt(id).ac.vals| == Total(CoderAt(id).ac.counts, 16)
      ensures ReadScan(Coders(), comps, bits, pred)
           == match ReadBlock(CoderAt(id), bits, pred[cmp])
              case Bad => Bad
              case Got(blk, rest) => After([Unit(cmp, blk)], ReadScan(Coders(), comps[1..], rest, pred[cmp := Int16(blk[0])]))
    {
      CoderFacts(id);
      hide ReadBlock, TablesOk, Int16;
    }

    /** The dequantised blocks `mcu` are those of the units `us`. */
    ghost predicate Loaded(mcu: seq<seq<int>>, us: seq<Unit>)
      requires QuantOk()
      reads `qttbl, `qtid
    {
      |mcu| == |us| && forall i :: 0 <= i < |us| ==> us[i].comp < 3 && Dequantized(mcu[i], qttbl[qtid[us[i].comp]], us[i].blk)
    }

    lemma LoadedMore(mcu: seq<seq<int>>, us: seq<Unit>, tmp: seq<int>, u: Unit)
      requires QuantOk() && Loaded(mcu, us) && u.comp < 3 && Dequantized(tmp, qttbl[qtid[u.comp]], u.blk)
      ensures Loaded(mcu + [tmp], us + [u])
    {
      hide Dequantized;
    }

    lemma LoadedConcat(a: seq<seq<int>>, us: seq<Unit>, b: seq<seq<int>>, vs: seq<Unit>)
      requires QuantOk() && Loaded(a, us) && Loaded(b, vs)
      ensures Loaded(a + b, us + vs)
    {
      hide Dequantized;
    }

    /** One block of an MCU, after the blocks `us0`; `comps` is what the scan still reads. */
    method NextBlock(cmp: nat, mcu0: seq<seq<int>>, ghost us0: seq<Unit>, ghost comps: seq<nat>, ghost goal: Read<seq<Unit>>)
      returns (rc: int, mcu: seq<seq<int>>, ghost us: seq<Unit>)
      requires Valid() && TablesOk() && QuantOk() && DcvOk() && |dcv| == 3 && cmp < 3 && Loaded(mcu0, us0)
      requires (forall i :: 0 <= i < |comps| ==> comps[i] < 3) && |comps| > 0 && comps[0] == cmp
      requires Bound(goal) ==> goal == After(us0, ReadScan(Coders(), comps, Data, dcv))
      modifies `read, `dptr, `dctr, `dbit, inbuf, `Data, `marker, `wreg, `Held, `dcv, workbuf
      ensures DcvOk() && |dcv| == 3 && rc >= 0 && (rc == 0 ==> Valid() && Loaded(mcu, us))
      ensures Bound(goal) ==> goal == if rc == 0 then After(us, ReadScan(Coders(), comps[1..], Data, dcv)) else Bad
    {
      hide Valid, ReadScan, ReadBlock, TablesOk, QuantOk, DcvOk, Coders, After, Loaded, Dequantized, Int16, CoderAt, CodersOk;
      hide Total, Coder.Valid, CoderOf;
      var id := if cmp == 0 then 0 else 1;
      GotAfter(us0, ReadScan(Coders(), comps, Data, dcv));
      ReadScanCases(cmp, id, comps, Data, dcv);
      ghost var b;
      rc, b := LoadBlock(cmp, id);
      DcvLength();
      BadAfter(us0);
      mcu, us := mcu0 + [workbuf[..]], us0 + [Unit(cmp, b)];
      if rc == 0 {
        LoadedMore(mcu0, us0, workbuf[..], Unit(cmp, b));
        AfterAfter(us0, [Unit(cmp, b)], ReadScan(Coders(), comps[1..], Data, dcv));
      }
    }

    /**
     `mcu_load`: the luma blocks, then the two chroma blocks of a colour image.  `more` is what the scan
     reads afterwards.
     */
    method McuLoad(nby: nat, ncomp: nat, ghost more: seq<nat>) returns (rc: int, mcu: seq<seq<int>>, ghost us: seq<Unit>)
      requires Valid() && TablesOk() && QuantOk() && DcvOk() && forall i :: 0 <= i < |more| ==> more[i] < 3
      modifies `read, `dptr, `dctr, `dbit, inbuf, `Data, `marker, `wreg, `Held, `dcv, workbuf
      ensures DcvOk() && |dcv| == 3 && rc >= 0 && (rc == 0 ==> Valid() && Loaded(mcu, us))
      ensures var goal := ReadScan(Coders(), McuComps(nby, ncomp) + more, old(Data), old(dcv));
              Bound(goal) ==> goal == if rc == 0 then After(us, ReadScan(Coders(), more, Data, dcv)) else Bad
    {
      hide Valid, ReadScan, TablesOk, QuantOk, DcvOk, Coders, After, Loaded, CodersOk;
      DcvLength();
      ghost var comps := McuComps(nby, ncomp) + more;
      ghost var goal := ReadScan(Coders(), comps, Data, dcv);
      rc, mcu, us := 0, [], [];
      AfterNone(goal);
      LoadedNone();
      for blk := 0 to nby + 2
        invariant Valid() && DcvOk() && |dcv| == 3 && Loaded(mcu, us) && rc == 0
        invariant Done(blk, nby, ncomp) <= |McuComps(nby, ncomp)|
        invariant Bound(goal) ==> goal == After(us, ReadScan(Coders(), comps[Done(blk, nby, ncomp)..], Data, dcv))
      {
        var cmp := if blk < nby then 0 else blk - nby + 1;
        if cmp == 0 || ncomp == 3 {
          ghost var rest := comps[Done(blk, nby, ncomp)..];
          assert rest[1..] == comps[Done(blk + 1, nby, ncomp)..];
          rc, mcu, us := NextBlock(cmp, mcu, us, rest, goal);
          if rc != 0 {
            return;
          }
        }
      }
      assert comps[|McuComps(nby, ncomp)|..] == more;
    }

    /** One MCU after `us`, with `n` MCUs to go: the loop body of `jd_decomp`. */
    method NextMcu(nby: nat, ncomp: nat, ghost n: nat, blocks0: seq<seq<int>>, ghost us0: seq<Unit>, ghost goal: Read<seq<Unit>>)
      returns (rc: int, blocks: seq<seq<int>>, ghost us: seq<Unit>)
      requires Valid() && TablesOk() && QuantOk() && DcvOk() && |dcv| == 3 && n > 0 && Loaded(blocks0, us0)
      requires Bound(goal) ==> goal == After(us0, ReadScan(Coders(), ScanComps(nby, ncomp, n), Data, dcv))
      modifies `read, `dptr, `dctr, `dbit, inbuf, `Data, `marker, `wreg, `Held, `dcv, workbuf
      ensures DcvOk() && |dcv| == 3 && rc >= 0 && (rc == 0 ==> Valid() && Loaded(blocks, us))
      ensures Bound(goal) ==> goal == if rc == 0 then After(us, ReadScan(Coders(), ScanComps(nby, ncomp, n - 1), Data, dcv)) else Bad
    {
      hide Valid, ReadScan, TablesOk, QuantOk, DcvOk, Coders, After, Loaded, CodersOk;
      ghost var more := ScanComps(nby, ncomp, n - 1);
      ghost var inner := ReadScan(Coders(), ScanComps(nby, ncomp, n), Data, dcv);
      GotAfter(us0, inner);
      var mcu;
      ghost var vs;
      rc, mcu, vs := McuLoad(nby, ncomp, more);
      AfterAfter(us0, vs, ReadScan(Coders(), more, Data, dcv));
      blocks, us := blocks0 + mcu, us0 + vs;
      BadAfter(us0);
      if rc == 0 {
        LoadedConcat(blocks0, us0, mcu, vs);
      }
    }

    /**
     The MCU loops of `jd_decomp` for a stream without restart intervals: every MCU of the image is loaded, or
     the first error is returned.
     */
    method DecodeScan(width: nat, height: nat, msx: nat, msy: nat, ncomp: nat)
      returns (rc: int, blocks: seq<seq<int>>, ghost us: seq<Unit>)
      requires Valid() && TablesOk() && QuantOk() && msx > 0 && msy > 0 && nrst == 0
      modifies `read, `dptr, `dctr, `dbit, inbuf, `Data, `marker, `wreg, `Held, `dcv, workbuf
      ensures rc == 0 ==> Valid() && Loaded(blocks, us)
      ensures match ReadScan(Coders(), ScanComps(msx * msy, ncomp, Mcus(width, 8 * msx) * Mcus(height, 8 * msy)), old(Data), [0, 0, 0])
              case Got(sent, rest) => Steady() ==> rc == 0 && us == sent && Data == rest
              case Bad => FAST == 0 ==> rc != 0
    {
      hide Valid, ReadScan, TablesOk, QuantOk, Coders, After, Loaded, CodersOk, ScanComps, Mcus, DcvOk;
      var mx, my := msx * 8, msy * 8;
      dcv := [0, 0, 0];
      DcvStarts();
      ghost var total := Mcus(width, mx) * Mcus(height, my);
      ghost var goal := ReadScan(Coders(), ScanComps(msx * msy, ncomp, total), Data, dcv);
      AfterNone(goal);
      LoadedNone();
      rc, blocks, us := 0, [], [];
      var y := 0;
      ghost var left := total;
      McusStart(width, mx);
      McusStart(height, my);
      while y < height
        invariant Valid() && DcvOk() && |dcv| == 3 && Loaded(blocks, us) && rc == 0
        invariant left == Mcus(width, mx) * Mcus(if y < height then height - y else 0, my)
        invariant Bound(goal) ==> goal == After(us, ReadScan(Coders(), ScanComps(msx * msy, ncomp, left), Data, dcv))
      {
        ghost var row := Mcus(width, mx) * Mcus(if y + my < height then height - y - my else 0, my);
        McusNext(height - y, my, Mcus(width, mx));
        var x := 0;
        while x < width
          invariant Valid() && DcvOk() && |dcv| == 3 && Loaded(blocks, us) && rc == 0
          invariant left == row + Mcus(if x < width then width - x else 0, mx)
          invariant Bound(goal) ==> goal == After(us, ReadScan(Coders(), ScanComps(msx * msy, ncomp, left), Data, dcv))
        {
          McusNext(width - x, mx, 1);
          rc, blocks, us := NextMcu(msx * msy, ncomp, left, blocks, us, goal);
          if rc != 0 {
            return;
          }
          left := left - 1;
          x := x + mx;
        }
        y := y + my;
      }
      ScanDone(us, msx * msy, ncomp, Data, dcv);
    }

    lemma DcvStarts()
      requires dcv == [0, 0, 0]
      ensures DcvOk()
    {
    }

    lemma ScanDone(us: seq<Unit>, nby: nat, ncomp: nat, data: seq<bool>, pred: seq<int>)
      requires TablesOk() && |pred| == 3
      ensures After(us, ReadScan(Coders(), ScanComps(nby, ncomp, 0), data, pred)) == Got(us, data)
    {
      hide TablesOk, CodersOk;
      ReadScanNone(Coders(), data, pred);
      assert us + [] == us;
    }

    lemma LoadedNone()
      requires QuantOk()
      ensures Loaded([], [])
    {
    }
  }

  /** How many blocks of an MCU have been read after `blk` iterations. */
  function Done(blk: nat, nby: nat, ncomp: nat): nat {
    if blk <= nby || ncomp == 3 then blk else nby
  }

  /** How many MCUs of `m` pixels cover `n` pixels. */
  function Mcus(n: nat, m: nat): nat
    requires m > 0
    decreases n
  {
    if n == 0 then 0 else 1 + Mcus(if n < m then 0 else n - m, m)
  }

  lemma McusStart(n: nat, m: nat)
    requires m > 0
    ensures Mcus(0, m) == 0
  {
  }

  lemma McusNext(n: nat, m: nat, k: nat)
    requires m > 0 && n > 0
    ensures k * Mcus(n, m) == k * Mcus(if n <= m then 0 else n - m, m) + k
  {
    MulDistribute(Mcus(if n <= m then 0 else n - m, m), 1, k);
  }

  lemma GotAfter(us: seq<Unit>, r: Read<seq<Unit>>)
    ensures After(us, r).Got? <==> r.Got?
  {
  }

  lemma BadAfter(us: seq<Unit>)
    ensures After(us, Bad) == Bad
  {
  }

  /** A block with only a DC element, dequantised. */
  lemma DcOnly(tmp: seq<int>, dqf: seq<int>, d: int)
    requires |tmp| == 64 == |dqf| && tmp[0] == Dequantize(d, dqf[0]) && forall k :: 1 <= k < 64 ==> tmp[k] == 0
    ensures Dequantized(tmp, dqf, ZeroBlock[0 := d])
  {
    ZigzagIsPermutation();
    ZigzagStart();
    hide Zig, Inv;
    forall z | 0 <= z < 64 ensures Zig(z) < 64 && tmp[Zig(z)] == Dequantize(ZeroBlock[0 := d][z], dqf[Zig(z)]) {
      assert InverseAt(z) && InverseAt(0);
    }
  }

  lemma ZigzagStart()
    ensures Zig(0) == 0
  {
  }

  /** The AC loop never touches the DC element. */
  lemma {:induction false} ReadAcKeepsDc(t: Table, data: seq<bool>, z: nat, cur: Block)
    requires |t.counts| == 16 && |t.vals| == Total(t.counts, 16) && z >= 1
    ensures var r := ReadAc(t, data, z, cur); r.Got? ==> r.value[0] == cur[0]
    decreases 64 - z
  {
    hide ReadSymbol, ReadValue;
    if z < 64 {
      match ReadSymbol(t, data)
      case Bad =>
      case Got(s, rest) =>
        if s != 0 && z + s / 16 < 64 {
          if s % 16 == 0 {
            ReadAcKeepsDc(t, rest, z + s / 16 + 1, cur);
          } else if ReadValue(s % 16, rest).Got? {
            var v := ReadValue(s % 16, rest);
            ReadAcKeepsDc(t, v.rest, z + s / 16 + 1, cur[z + s / 16 := v.value]);
          }
        }
    }
  }

  /** `d * dqf[i] >> 8`: the product is a signed 32-bit one. */
  function Dequantize(v: int, q: int): int {
    Int32(v * q) / 256
  }

  /** Every product of the block fits 32 bits. */
  ghost predicate ProductsFit(blk: Block, dqf: seq<int>)
    requires |dqf| == 64
  {
    forall z :: 0 <= z < 64 ==> Zig(z) < 64 && -0x8000_0000 <= blk[z] * dqf[Zig(z)] <= 0x7FFF_FFFF
  }

  /** Then the working block holds the exact products, scaled down. */
  lemma DequantizedExactly(tmp: seq<int>, dqf: seq<int>, blk: Block)
    requires Dequantized(tmp, dqf, blk) && ProductsFit(blk, dqf)
    ensures |tmp| == 64 && forall z :: 0 <= z < 64 ==> Zig(z) < 64 && tmp[Zig(z)] == blk[z] * dqf[Zig(z)] / 256
  {
    hide Zig;
    forall z | 0 <= z < 64 ensures Zig(z) < 64 && tmp[Zig(z)] == blk[z] * dqf[Zig(z)] / 256 {
      Int32Exact(blk[z] * dqf[Zig(z)]);
    }
  }

  lemma Int32Exact(v: int)
    ensures Int32(v) == v <==> -0x8000_0000 <= v <= 0x7FFF_FFFF
  {
  }

  /** A stream can ask for more: a 15-bit value times the largest table entry wraps around. */
  lemma ProductWraps()
    ensures Dequantize(32767, 255 * 15760) < 0 < 32767 * (255 * 15760) / 256
  {
  }

  /** The working block holds the coefficients `blk` scaled by the dequantiser, in raster order. */
  ghost predicate Dequantized(tmp: seq<int>, dqf: seq<int>, blk: Block) {
    && |tmp| == 64 && |dqf| == 64
    && forall z :: 0 <= z < 64 ==> Zig(z) < 64 && tmp[Zig(z)] == Dequantize(blk[z], dqf[Zig(z)])
  }

  lemma StoreCoefficient(tmp: seq<int>, dqf: seq<int>, blk: Block, z: nat, v: int)
    requires z < 64 && Dequantized(tmp, dqf, blk)
    ensures Zig(z) < 64 && |dqf| == 64 == |tmp|
    ensures Dequantized(tmp[Zig(z) := Dequantize(v, dqf[Zig(z)])], dqf, blk[z := v])
  {
    hide Zig, Inv;
    ZigzagIsPermutation();
    assert InverseAt(z);
  }

  lemma ReadAcDone(t: Table, data: seq<bool>, z: nat, blk: Block)
    requires |t.counts| == 16 && |t.vals| == Total(t.counts, 16) && z >= 64
    ensures ReadAc(t, data, z, blk) == Got(blk, data)
  {
    hide ReadSymbol, ReadValue;
  }

  lemma Int16Int16(d: int)
    ensures Int16(Int16(d)) == Int16(d)
  {
  }

  lemma ReadNothing(data: seq<bool>)
    ensures ReadValue(0, data) == Got(0, data)
  {
  }

  /** A lookup either gives the reference result or says that no code of ten bits or fewer matches. */
  lemma LutHit(tb: CodeTable, ac: bool, win: seq<bool>)
    requires tb.LutOk(ac) && |win| >= 16
    ensures |tb.bits| == 16 && |tb.data| == Total(tb.bits, 16)
    ensures ValueOf(win[..10]) < |tb.lut|
    ensures var d := tb.lut[ValueOf(win[..10])];
            if d == (if ac then 0xFFFF else 0xFF) then Search(tb.Spec(), win, 1) == Search(tb.Spec(), win, 11)
            else var len, sym := if ac then d / 256 else d / 16, if ac then d % 256 else d % 16;
                 len <= 16 && HuffDecode(tb.Spec(), win) == Hit(sym, len)
    ensures tb.longofs == Total(tb.bits, 10) || Total(tb.bits, 10) == Total(tb.bits, 16)
  {
    hide Search, Total, BitsOf, LutEntry, Canonical;
    LutFacts(tb, ac);
    Pow2Values();
    ValueOfBound(win[..10]);
    BitsOfValueOf(win[..10]);
    var v, t := ValueOf(win[..10]), tb.Spec();
    assert win[..10] + win[10..] == win;
    SearchExtend(t, win[..10], win[10..], 1);
    LutMeaning(ac, t, win[..10]);
    TotalMonotone(tb.bits, 10, 16);
  }

  lemma LutFacts(tb: CodeTable, ac: bool)
    requires tb.LutOk(ac)
    ensures |tb.bits| == 16 && |tb.data| == Total(tb.bits, 16) && tb.Spec().Valid() && SymbolsFit(ac, tb.Spec().vals)
  {
  }

  lemma LutMeaning(ac: bool, t: Table, bits: seq<bool>)
    requires t.Valid() && SymbolsFit(ac, t.vals) && |bits| == 10
    ensures |t.counts| == 16 && |t.vals| == Total(t.counts, 16)
    ensures var d := LutEntry(ac, HuffDecode(t, bits));
            if d == (if ac then 0xFFFF else 0xFF) then Search(t, bits, 1) == Miss
            else HuffDecode(t, bits) == Hit(if ac then d % 256 else d % 16, if ac then d / 256 else d / 16)
  {
    hide Search;
    if HuffDecode(t, bits).Hit? {
      var k := HitIsWord(t, bits, 1);
      CanonicalFits(t.counts, k);
      LutEntryUnpacks(ac, HuffDecode(t, bits).sym, HuffDecode(t, bits).len);
    }
  }

  /** The data, continued by ones, fills the window. */
  ghost predicate PaddedBy(data: seq<bool>, w: seq<bool>) {
    |data| <= |w| && w == data + Ones(|w| - |data|)
  }

  ghost function Dropped(data: seq<bool>, n: nat): seq<bool> {
    if n <= |data| then data[n..] else []
  }

  lemma PadMore(data: seq<bool>, w: seq<bool>)
    requires data == w || PaddedBy(data, w)
    ensures PaddedBy(data, w + BitsOf(0xFF, 8))
  {
    Pow2Values();
    OnesBits(8);
  }

  lemma ModBound(v: nat, p: nat)
    requires p > 0
    ensures v % p < p
  {
  }

  lemma ShiftInOctet(w: nat, wbit: nat, d: byte)
    requires w < Pow2(wbit)
    ensures BitOr(w * 256, d) < Pow2(wbit + 8)
    ensures BitsOf(BitOr(w * 256, d), wbit + 8) == BitsOf(w, wbit) + BitsOf(d, 8)
  {
    hide *;
    Pow2Values();
    BitOrDisjoint(w, d, 8);
    var v := ConcatValue(w, wbit, d, 8);
  }

  lemma BitsOfSuffix(w: nat, n: nat, len: nat)
    requires len <= n
    ensures BitsOf(w, n)[len..] == BitsOf(w, n - len)
  {
    hide *;
    var q, r := DivMod(w, Pow2(n - len));
    BitsOfConcat(q, len, r, n - len);
    BitsOfConcat(q, 0, r, n - len);
  }

  lemma SnipWindow(data: seq<bool>, end: Ending, w: seq<bool>, len: nat, bytes: seq<byte>)
    requires len <= |w|
    ensures Continues(data, end, w, bytes) ==> Continues(Dropped(data, len), end, w[len..], bytes)
    ensures PaddedBy(data, w) ==> PaddedBy(Dropped(data, len), w[len..])
  {
    hide Unstuff, ByteBits;
  }

  /** What the next bytes of a segment mean when the bits `w` are already held. */
  lemma WindowCases(data: seq<bool>, end: Ending, w: seq<bool>, bs: seq<byte>)
    requires Continues(data, end, w, bs)
    ensures |bs| == 0 ==> data == w && end == NoMore
    ensures |bs| > 0 && bs[0] != 0xFF ==> Continues(data, end, w + BitsOf(bs[0], 8), bs[1..])
    ensures |bs| == 1 && bs[0] == 0xFF ==> data == w && end == LoneFF
    ensures |bs| > 1 && bs[0] == 0xFF && bs[1] == 0 ==> Continues(data, end, w + BitsOf(0xFF, 8), bs[2..])
    ensures |bs| > 1 && bs[0] == 0xFF && bs[1] != 0 ==> data == w && end == Marker(bs[1])
  {
    hide BitsOf;
    if |bs| > 0 && bs[0] != 0xFF {
      OctetFirst(w, bs[0], Unstuff(bs[1..]));
    } else if |bs| > 1 && bs[1] == 0 {
      OctetFirst(w, 0xFF, Unstuff(bs[2..]));
    }
  }

  lemma OctetFirst(w: seq<bool>, c: byte, s: Segment)
    ensures w + ByteBits(Prepend(c, s).raw) == (w + BitsOf(c, 8)) + ByteBits(s.raw)
  {
    hide BitsOf;
    assert ([c] + s.raw)[1..] == s.raw;
  }

  /** The top `l` bits of the register are the first `l` bits of the window. */
  lemma TopBits(w: nat, wbit: nat, l: nat)
    requires w < Pow2(wbit) && l <= wbit
    ensures w / Pow2(wbit - l) == ValueOf(BitsOf(w, wbit)[..l])
  {
    hide *;
    var q, r := DivMod(w, Pow2(wbit - l));
    BitsOfConcat(q, l, r, wbit - l);
    Pow2Add(l, wbit - l);
    MulCancelStrict(q, Pow2(l), Pow2(wbit - l));
    ValueOfBitsOf(q, l);
    assert BitsOf(w, wbit)[..l] == BitsOf(q, l);
  }

  /** Decoding looks at no more than sixteen bits. */
  lemma SamePrefix(t: Table, a: seq<bool>, b: seq<bool>)
    requires |t.counts| == 16 && |t.vals| == Total(t.counts, 16)
    requires |a| >= 16 && |b| >= 16 && a[..16] == b[..16]
    ensures Search(t, a, 1) == HuffDecode(t, b)
  {
    hide *;
    SearchSame(t, a, b, 1);
    Decodes(t, b);
  }

  lemma {:induction false} SearchSame(t: Table, a: seq<bool>, b: seq<bool>, l: nat)
    requires |t.counts| == 16 && |t.vals| == Total(t.counts, 16)
    requires |a| >= 16 && |b| >= 16 && a[..16] == b[..16] && 1 <= l <= 17
    ensures Search(t, a, l) == Search(t, b, l)
    decreases 17 - l
  {
    hide *;
    if l == 17 {
      SearchShort(t, a, 17);
      SearchShort(t, b, 17);
    } else {
      assert a[..l] == a[..16][..l] == b[..l];
      SearchSame(t, a, b, l + 1);
      SearchStep(t, a, l);
      SearchStep(t, b, l);
    }
  }

  lemma TableFacts(tb: CodeTable)
    requires tb.Ok()
    ensures |tb.bits| == 16 && |tb.data| == Total(tb.bits, 16)
  {
  }

  lemma SearchShort(t: Table, data: seq<bool>, l: nat)
    requires |t.counts| == 16 && |t.vals| == Total(t.counts, 16) && 1 <= l <= 17 && (l > |data| || l == 17)
    ensures Search(t, data, l) == Miss
  {
  }

  lemma SearchStep(t: Table, data: seq<bool>, l: nat)
    requires |t.counts| == 16 && |t.vals| == Total(t.counts, 16) && 1 <= l <= 16 && l <= |data|
    ensures var d := ValueOf(data[..l]) - FirstCode(t.counts, l);
            if 0 <= d < t.counts[l - 1]
            then Total(t.counts, l - 1) + d < |t.vals| && Search(t, data, l) == Hit(t.vals[Total(t.counts, l - 1) + d], l)
            else Search(t, data, l) == Search(t, data, l + 1)
  {
    TotalMonotone(t.counts, l, 16);
    hide ValueOf, FirstCode;
  }

  lemma ValueStep(data: seq<bool>, l: nat)
    requires 1 <= l <= |data|
    ensures ValueOf(data[..l]) == 2 * ValueOf(data[..l - 1]) + if data[l - 1] then 1 else 0
  {
    assert data[..l][..l - 1] == data[..l - 1];
  }

  /** The mask is zero exactly when no bit is left under it. */
  lemma MaskZero(n: nat)
    ensures Pow2(n) / 2 == 0 <==> n == 0
    ensures Pow2(8) / 2 == 0x80
  {
    Pow2Values();
  }

  /** The mask picks the first unread bit. */
  lemma {:induction false} MaskBit(v: nat, n: nat)
    requires n > 0
    ensures Pow2(n) / 2 == Pow2(n - 1) && Pow2(n) / 2 / 2 == Pow2(n - 1) / 2
    ensures BitsOf(v, n)[0] == (v / Pow2(n - 1) % 2 == 1)
    ensures BitsOf(v, n)[1..] == BitsOf(v, n - 1)
  {
    var q, r := DivMod(v, Pow2(n - 1));
    BitsOfConcat(q, 1, r, n - 1);
    assert BitsOf(q, 1) == [q % 2 == 1];
    BitsOfConcat(q, 0, r, n - 1);
  }

  lemma DropFirst(a: seq<bool>, b: seq<bool>)
    requires |a| > 0
    ensures (a + b)[0] == a[0] && (a + b)[1..] == a[1..] + b
  {
  }

  /** What the next bytes of a segment mean when no bits are held. */
  lemma OctetCases(data: seq<bool>, end: Ending, bs: seq<byte>)
    requires Continues(data, end, [], bs)
    ensures |bs| == 0 ==> data == [] && end == NoMore
    ensures |bs| > 0 && bs[0] != 0xFF ==> |data| > 0 && Continues(data, end, BitsOf(bs[0], 8), bs[1..])
    ensures |bs| == 1 && bs[0] == 0xFF ==> data == [] && end == LoneFF
    ensures |bs| > 1 && bs[0] == 0xFF && bs[1] == 0 ==> |data| > 0 && Continues(data, end, BitsOf(0xFF, 8), bs[2..])
    ensures |bs| > 1 && bs[0] == 0xFF && bs[1] != 0 ==> data == [] && end == Marker(bs[1])
  {
    hide BitsOf, Unstuff, ByteBits;
    WindowCases(data, end, [], bs);
    assert forall b: byte :: [] + BitsOf(b, 8) == BitsOf(b, 8);
  }

  /** Dropping the first byte of a buffered stream. */
  lemma TakeFirst(buffered: seq<byte>, more: seq<byte>, rest: seq<byte>)
    requires |buffered| > 0 && rest == buffered + more
    ensures |rest| > 0 && rest[0] == buffered[0] && rest[1..] == buffered[1..] + more
  {
  }
}
