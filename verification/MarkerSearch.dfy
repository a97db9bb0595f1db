/**
 The marker searches of the camera driver: SOI, and EOI backward, byte by byte, or forward, a word at a time.
 */
module MarkerSearch {

  type Buffer = seq<bv8>

  predicate SoiAt(s: Buffer, i: int) {
    0 <= i && i + 3 <= |s| && s[i] == 0xFF && s[i + 1] == 0xD8 && s[i + 2] == 0xFF
  }

  predicate EoiAt(s: Buffer, i: int) {
    0 <= i && i + 2 <= |s| && s[i] == 0xFF && s[i + 1] == 0xD9
  }

  /** A 32-bit word loaded from four bytes, little-endian. */
  function Word(b0: bv8, b1: bv8, b2: bv8, b3: bv8): bv32 {
    (b0 as bv32) | ((b1 as bv32) << 8) | ((b2 as bv32) << 16) | ((b3 as bv32) << 24)
  }

  const ONE: bv32 := 0x01010101
  const HIGH: bv32 := 0x80808080
  const A: bv32 := 0xFFFFFFFF // 0xFF in every byte

  /** The candidate mask: the high bit of every byte that is FF, and of some others through borrows. */
  function Candidates(w: bv32): bv32 {
    var x := w ^ A;
    (!x & (x - ONE)) & HIGH
  }

  /** `__builtin_ctz`. */
  function Ctz(m: bv32): nat {
    if m & 0x1 != 0 then 0
    else if m & 0x2 != 0 then 1
    else if m & 0x4 != 0 then 2
    else if m & 0x8 != 0 then 3
    else if m & 0x10 != 0 then 4
    else if m & 0x20 != 0 then 5
    else if m & 0x40 != 0 then 6
    else if m & 0x80 != 0 then 7
    else if m & 0x100 != 0 then 8
    else if m & 0x200 != 0 then 9
    else if m & 0x400 != 0 then 10
    else if m & 0x800 != 0 then 11
    else if m & 0x1000 != 0 then 12
    else if m & 0x2000 != 0 then 13
    else if m & 0x4000 != 0 then 14
    else if m & 0x8000 != 0 then 15
    else if m & 0x10000 != 0 then 16
    else if m & 0x20000 != 0 then 17
    else if m & 0x40000 != 0 then 18
    else if m & 0x80000 != 0 then 19
    else if m & 0x100000 != 0 then 20
    else if m & 0x200000 != 0 then 21
    else if m & 0x400000 != 0 then 22
    else if m & 0x800000 != 0 then 23
    else if m & 0x1000000 != 0 then 24
    else if m & 0x2000000 != 0 then 25
    else if m & 0x4000000 != 0 then 26
    else if m & 0x8000000 != 0 then 27
    else if m & 0x10000000 != 0 then 28
    else if m & 0x20000000 != 0 then 29
    else if m & 0x40000000 != 0 then 30
    else if m & 0x80000000 != 0 then 31
    else 32
  }

  /** Whether the mask has the candidate bit of byte `k`. */
  predicate Has(m: bv32, k: int) {
    match k
    case 0 => m & 0x80 != 0
    case 1 => m & 0x8000 != 0
    case 2 => m & 0x800000 != 0
    case 3 => m & 0x80000000 != 0
    case _ => false
  }

  /** Every byte equal to FF is a candidate: a borrow can add candidates but never hide one. */
  lemma EveryMatchIsCandidate(b0: bv8, b1: bv8, b2: bv8, b3: bv8)
    ensures var m := Candidates(Word(b0, b1, b2, b3));
            && m & HIGH == m
            && (b0 == 0xFF ==> Has(m, 0)) && (b1 == 0xFF ==> Has(m, 1)) && (b2 == 0xFF ==> Has(m, 2)) && (b3 == 0xFF ==> Has(m, 3))
  {
  }

  /** A borrow does add candidates: an FE after an FF becomes one. */
  lemma FalseCandidate()
    ensures Has(Candidates(Word(0xFF, 0xFE, 0, 0)), 1)
  {
  }

  /** The lowest candidate, and the mask without it. */
  lemma LowestCandidate(m: bv32)
    requires m & HIGH == m && m != 0
    ensures Ctz(m) / 8 < 4 && Has(m, Ctz(m) / 8)
    ensures forall k :: 0 <= k < Ctz(m) / 8 ==> !Has(m, k)
    ensures var m' := m & (m - 1);
            m' & HIGH == m' && !Has(m', Ctz(m) / 8) && forall k :: 0 <= k < 4 && k != Ctz(m) / 8 ==> Has(m', k) == Has(m, k)
  {
  }

  /** The least position of an EOI, or -1. */
  function FirstEoi(s: Buffer, from: nat): (i: int)
    requires from <= |s|
    ensures i == -1 || (from <= i && EoiAt(s, i) && forall j :: from <= j < i ==> !EoiAt(s, j))
    ensures i == -1 ==> forall j :: from <= j ==> !EoiAt(s, j)
    decreases |s| - from
  {
    if from == |s| then -1 else if EoiAt(s, from) then from else FirstEoi(s, from + 1)
  }

  /** The greatest position of an EOI below `to`, or -1. */
  function LastEoi(s: Buffer, to: nat): (i: int)
    ensures i == -1 || (0 <= i < to && EoiAt(s, i) && forall j :: i < j < to ==> !EoiAt(s, j))
    ensures i == -1 ==> forall j :: 0 <= j < to ==> !EoiAt(s, j)
  {
    if to == 0 then -1 else if EoiAt(s, to - 1) then to - 1 else LastEoi(s, to - 1)
  }

  /** A position of the marker that nothing precedes is the one found. */
  lemma FirstEoiUnique(s: Buffer, i: int)
    requires EoiAt(s, i) && forall j :: 0 <= j < i ==> !EoiAt(s, j)
    ensures FirstEoi(s, 0) == i
  {
  }

  lemma LastEoiUnique(s: Buffer, i: int)
    requires EoiAt(s, i) && forall j :: i < j < |s| ==> !EoiAt(s, j)
    ensures LastEoi(s, |s|) == i
  {
  }

  /** `memcmp` with the SOI marker. */
  method CompareSoi(inbuf: Buffer, i: nat) returns (same: bool)
    requires i + 3 <= |inbuf|
    ensures same == SoiAt(inbuf, i)
  {
    same := inbuf[i..i + 3] == [0xFF, 0xD8, 0xFF];
    assert inbuf[i..i + 3] == [inbuf[i], inbuf[i + 1], inbuf[i + 2]];
  }

  /** `cam_verify_jpeg_soi`. */
  method VerifyJpegSoi(inbuf: Buffer) returns (r: int)
    ensures r == -1 <==> forall j :: !SoiAt(inbuf, j)
    ensures r != -1 ==> SoiAt(inbuf, r) && forall j :: 0 <= j < r ==> !SoiAt(inbuf, j)
  {
    if |inbuf| < 3 {
      return -1;
    }
    var i := 0;
    while i <= |inbuf| - 3
      invariant 0 <= i <= |inbuf| - 2 && forall j :: 0 <= j < i ==> !SoiAt(inbuf, j)
    {
      var same := CompareSoi(inbuf, i);
      if same {
        return i;
      }
      i := i + 1;
    }
    return -1;
  }

  /** `memcmp` with the EOI marker. */
  method CompareEoi(inbuf: Buffer, i: nat) returns (same: bool)
    requires i + 2 <= |inbuf|
    ensures same == EoiAt(inbuf, i)
  {
    same := inbuf[i..i + 2] == [0xFF, 0xD9];
    assert inbuf[i..i + 2] == [inbuf[i], inbuf[i + 1]];
  }

  /** The candidates of one word, lowest first. */
  method ScanWord(inbuf: Buffer, i: nat) returns (found: bool, pos: nat)
    requires i + 4 <= |inbuf|
    ensures if found then i <= pos < i + 4 && EoiAt(inbuf, pos) && (forall j :: i <= j < pos ==> !EoiAt(inbuf, j))
            else forall j :: i <= j < i + 4 ==> !EoiAt(inbuf, j)
  {
    var w := Word(inbuf[i], inbuf[i + 1], inbuf[i + 2], inbuf[i + 3]);
    var m := Candidates(w);
    EveryMatchIsCandidate(inbuf[i], inbuf[i + 1], inbuf[i + 2], inbuf[i + 3]);
    found, pos := false, i;
    hide Has, Ctz, Candidates, Word;
    while m != 0
      invariant m & HIGH == m && forall k :: 0 <= k < 4 && EoiAt(inbuf, i + k) ==> Has(m, k)
      decreases m
    {
      LowestCandidate(m);
      var off := Ctz(m) / 8;
      pos := i + off;
      if pos + 2 <= |inbuf| {
        var same := CompareEoi(inbuf, pos);
        if same {
          forall j | i <= j < pos ensures !EoiAt(inbuf, j) {
            assert !Has(m, j - i);
            assert EoiAt(inbuf, i + (j - i)) ==> Has(m, j - i);
          }
          return true, pos;
        }
      }
      ClearedIsSmaller(m);
      m := m & (m - 1);
    }
    NoCandidates();
    forall j | i <= j < i + 4 ensures !EoiAt(inbuf, j) {
      assert EoiAt(inbuf, i + (j - i)) ==> Has(m, j - i);
    }
  }

  lemma ClearedIsSmaller(m: bv32)
    requires m != 0
    ensures m & (m - 1) < m
  {
  }

  lemma NoCandidates()
    ensures forall k :: 0 <= k < 4 ==> !Has(0, k)
  {
  }

  /** `cam_verify_jpeg_eoi` searching forward; positions fit a 32-bit `int`. */
  method FindEoiForward(inbuf: Buffer) returns (r: int)
    requires |inbuf| < 0x8000_0000
    ensures r == FirstEoi(inbuf, 0)
  {
    hide FirstEoi;
    if |inbuf| < 2 {
      NoRoom(inbuf);
      return -1;
    }
    var i := 0;
    while i + 4 <= |inbuf|
      invariant i <= |inbuf| && forall j :: 0 <= j < i ==> !EoiAt(inbuf, j)
    {
      var found, pos := ScanWord(inbuf, i);
      if found {
        FirstEoiUnique(inbuf, pos);
        return pos;
      }
      i := i + 4;
    }
    while i + 2 <= |inbuf|
      invariant i <= |inbuf| && forall j :: 0 <= j < i ==> !EoiAt(inbuf, j)
    {
      var same := CompareEoi(inbuf, i);
      if same {
        FirstEoiUnique(inbuf, i);
        return i;
      }
      i := i + 1;
    }
    NoneIsMinusOne(inbuf);
    return -1;
  }

  lemma NoneIsMinusOne(s: Buffer)
    requires forall j :: 0 <= j < |s| ==> !EoiAt(s, j)
    ensures FirstEoi(s, 0) == -1 && LastEoi(s, |s|) == -1
  {
  }

  lemma NoRoom(s: Buffer)
    requires |s| < 2
    ensures FirstEoi(s, 0) == -1 && LastEoi(s, |s|) == -1
  {
  }

  /** `cam_verify_jpeg_eoi` searching backward. */
  method FindEoiBackward(inbuf: Buffer) returns (r: int)
    requires |inbuf| < 0x8000_0000
    ensures r == LastEoi(inbuf, |inbuf|)
  {
    hide LastEoi;
    if |inbuf| < 2 {
      NoRoom(inbuf);
      return -1;
    }
    var dptr := |inbuf| - 2;
    while dptr >= 0
      invariant -1 <= dptr <= |inbuf| - 2 && forall j :: dptr < j < |inbuf| ==> !EoiAt(inbuf, j)
      decreases dptr
    {
      var same := CompareEoi(inbuf, dptr);
      if same {
        LastEoiUnique(inbuf, dptr);
        return dptr;
      }
      if dptr == 0 {
        break;
      }
      dptr := dptr - 1;
    }
    NoneIsMinusOne(inbuf);
    return -1;
  }

  // ---------- the probe window ----------

  /** `eoi_probe_window`. */
  function EoiProbeWindow(half: nat, frameLen: nat): nat {
    var w := half + 1;
    if w > frameLen then frameLen else w
  }

  /** The window at the end of the frame holds exactly the markers whose last byte is in the last `half` bytes. */
  lemma WindowHoldsFinalMarkers(s: Buffer, half: nat, e: int)
    requires EoiAt(s, e)
    ensures e + 1 >= |s| - half <==> e >= |s| - EoiProbeWindow(half, |s|)
  {
  }

  /** What the forward search of the window finds is the first of these markers in the frame. */
  lemma WindowSearch(s: Buffer, half: nat)
    ensures var at := |s| - EoiProbeWindow(half, |s|);
            var off := FirstEoi(s[at..], 0);
            && (off == -1 <==> forall e :: e + 1 >= |s| - half ==> !EoiAt(s, e))
            && (off != -1 ==> EoiAt(s, at + off) && forall e :: e + 1 >= |s| - half && e < at + off ==> !EoiAt(s, e))
  {
    hide FirstEoi;
    var at := |s| - EoiProbeWindow(half, |s|);
    forall e ensures EoiAt(s, e) && e >= at <==> EoiAt(s[at..], e - at) {
    }
    var off := FirstEoi(s[at..], 0);
    forall e | e + 1 >= |s| - half && EoiAt(s, e) ensures off != -1 && at + off <= e {
      WindowHoldsFinalMarkers(s, half, e);
      assert EoiAt(s[at..], e - at);
    }
    if off != -1 {
      assert EoiAt(s, at + off);
      WindowHoldsFinalMarkers(s, half, at + off);
    }
  }
}
