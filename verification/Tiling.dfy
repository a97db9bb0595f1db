/**
 The rectangles of the MCUs over the output image, and `jpeg_decode_out_cb`, which places them: together they
 write every output pixel exactly once.
 */
module Tiling {
  import opened Bits
  import opened McuOutput

  /** Size of the image, its MCUs, and the output scale. */
  datatype Frame = Frame(width: nat, height: nat, g: Geometry, scale: nat) {
    predicate Ok() {
      g.Ok() && scale <= 3 && width >= 1 && height >= 1
    }

    /** Size of the output image. */
    function Line(): nat {
      Scaled(scale, width)
    }

    function Lines(): nat {
      Scaled(scale, height)
    }
  }

  /** The first source pixel of an output pixel, along one side. */
  function Source(scale: nat, u: nat): nat {
    match scale
    case 0 => u
    case 1 => 2 * u
    case 2 => 4 * u
    case _ => 8 * u
  }

  /** MCU number `c` starts at this pixel. */
  function Start(m: nat, c: nat): nat {
    if m == 8 then 8 * c else 16 * c
  }

  /** The MCU an output pixel belongs to, along one side. */
  function Owner(scale: nat, m: nat, u: nat): nat {
    if m == 8 then Source(scale, u) / 8 else Source(scale, u) / 16
  }

  /**
   Along one side the output intervals of the MCUs partition the scaled side: pixel `u` lies in the interval
   of MCU `c` exactly when it lies in the image and `c` owns it.
   */
  lemma IntervalsPartition(scale: nat, m: nat, size: nat, c: nat, u: nat)
    requires scale <= 3 && m in {8, 16} && Start(m, c) < size
    ensures (Scaled(scale, Start(m, c)) <= u < Scaled(scale, Start(m, c)) + Extent(Start(m, c), m, size, scale))
        <==> (u < Scaled(scale, size) && Owner(scale, m, u) == c)
  {
    hide Extent, Owner, Start;
    match scale
    case 0 => IntervalsOne(m, size, c, u);
    case 1 => IntervalsHalf(m, size, c, u);
    case 2 => IntervalsQuarter(m, size, c, u);
    case _ => IntervalsEighth(m, size, c, u);
  }

  lemma IntervalsOne(m: nat, size: nat, c: nat, u: nat)
    requires m in {8, 16} && Start(m, c) < size
    ensures (Start(m, c) <= u < Start(m, c) + Extent(Start(m, c), m, size, 0)) <==> (u < size && Owner(0, m, u) == c)
  {
    var rest := size - Start(m, c);
    if m == 8 {
      assert Start(m, c) == 8 * c && size == 8 * c + rest;
      assert Owner(0, m, u) == c <==> 8 * c <= u < 8 * c + 8;
    }
    if m == 16 {
      assert Start(m, c) == 16 * c && size == 16 * c + rest;
      assert Owner(0, m, u) == c <==> 16 * c <= u < 16 * c + 16;
    }
  }

  lemma IntervalsHalf(m: nat, size: nat, c: nat, u: nat)
    requires m in {8, 16} && Start(m, c) < size
    ensures (Start(m, c) / 2 <= u < Start(m, c) / 2 + Extent(Start(m, c), m, size, 1)) <==> (u < size / 2 && Owner(1, m, u) == c)
  {
    var rest := size - Start(m, c);
    if m == 8 {
      assert Start(m, c) == 8 * c && (8 * c) / 2 == 4 * c && size / 2 == 4 * c + rest / 2;
      assert Owner(1, m, u) == c <==> 4 * c <= u < 4 * c + 4;
    }
    if m == 16 {
      assert Start(m, c) == 16 * c && (16 * c) / 2 == 8 * c && size / 2 == 8 * c + rest / 2;
      assert Owner(1, m, u) == c <==> 8 * c <= u < 8 * c + 8;
    }
  }

  lemma IntervalsQuarter(m: nat, size: nat, c: nat, u: nat)
    requires m in {8, 16} && Start(m, c) < size
    ensures (Start(m, c) / 4 <= u < Start(m, c) / 4 + Extent(Start(m, c), m, size, 2)) <==> (u < size / 4 && Owner(2, m, u) == c)
  {
    var rest := size - Start(m, c);
    if m == 8 {
      assert Start(m, c) == 8 * c && (8 * c) / 4 == 2 * c && size / 4 == 2 * c + rest / 4;
      assert Owner(2, m, u) == c <==> 2 * c <= u < 2 * c + 2;
    }
    if m == 16 {
      assert Start(m, c) == 16 * c && (16 * c) / 4 == 4 * c && size / 4 == 4 * c + rest / 4;
      assert Owner(2, m, u) == c <==> 4 * c <= u < 4 * c + 4;
    }
  }

  lemma IntervalsEighth(m: nat, size: nat, c: nat, u: nat)
    requires m in {8, 16} && Start(m, c) < size
    ensures (Start(m, c) / 8 <= u < Start(m, c) / 8 + Extent(Start(m, c), m, size, 3)) <==> (u < size / 8 && Owner(3, m, u) == c)
  {
    var rest := size - Start(m, c);
    if m == 8 {
      assert Start(m, c) == 8 * c && (8 * c) / 8 == c && size / 8 == c + rest / 8;
      assert Owner(3, m, u) == c <==> c <= u < c + 1;
    }
    if m == 16 {
      assert Start(m, c) == 16 * c && (16 * c) / 8 == 2 * c && size / 8 == 2 * c + rest / 8;
      assert Owner(3, m, u) == c <==> 2 * c <= u < 2 * c + 2;
    }
  }

  /** The owner of an output pixel is an MCU of the image. */
  lemma OwnerExists(scale: nat, m: nat, size: nat, u: nat)
    requires scale <= 3 && m in {8, 16} && u < Scaled(scale, size)
    ensures Start(m, Owner(scale, m, u)) < size
  {
  }

  /** Whether the rectangle of the MCU at column `c`, row `r` holds the output pixel. */
  predicate Covers(f: Frame, c: nat, r: nat, u: nat, v: nat)
    requires Start(f.g.mx, c) < f.width && Start(f.g.my, r) < f.height
  {
    && Scaled(f.scale, Start(f.g.mx, c)) <= u < Scaled(f.scale, Start(f.g.mx, c)) + Extent(Start(f.g.mx, c), f.g.mx, f.width, f.scale)
    && Scaled(f.scale, Start(f.g.my, r)) <= v < Scaled(f.scale, Start(f.g.my, r)) + Extent(Start(f.g.my, r), f.g.my, f.height, f.scale)
  }

  /** The rectangles partition the image: every output pixel is in exactly one, and nothing else is in any. */
  lemma RectanglesPartition(f: Frame, u: nat, v: nat)
    requires f.Ok()
    ensures u < f.Line() && v < f.Lines() ==>
              var c, r := Owner(f.scale, f.g.mx, u), Owner(f.scale, f.g.my, v);
              Start(f.g.mx, c) < f.width && Start(f.g.my, r) < f.height && Covers(f, c, r, u, v)
    ensures forall c, r :: Start(f.g.mx, c) < f.width && Start(f.g.my, r) < f.height && Covers(f, c, r, u, v) ==>
              u < f.Line() && v < f.Lines() && c == Owner(f.scale, f.g.mx, u) && r == Owner(f.scale, f.g.my, v)
  {
    hide Scaled, Extent, Owner, Start;
    if u < f.Line() && v < f.Lines() {
      OwnerExists(f.scale, f.g.mx, f.width, u);
      OwnerExists(f.scale, f.g.my, f.height, v);
      IntervalsPartition(f.scale, f.g.mx, f.width, Owner(f.scale, f.g.mx, u), u);
      IntervalsPartition(f.scale, f.g.my, f.height, Owner(f.scale, f.g.my, v), v);
    }
    forall c, r | Start(f.g.mx, c) < f.width && Start(f.g.my, r) < f.height && Covers(f, c, r, u, v)
      ensures u < f.Line() && v < f.Lines() && c == Owner(f.scale, f.g.mx, u) && r == Owner(f.scale, f.g.my, v)
    {
      IntervalsPartition(f.scale, f.g.mx, f.width, c, u);
      IntervalsPartition(f.scale, f.g.my, f.height, r, v);
    }
  }

  // ---------- jpeg_decode_out_cb ----------

  /** Bytes per output pixel. */
  function OutBytes(out565: bool): nat {
    if out565 then 2 else 3
  }

  /** The bytes of an output pixel: RGB565 low byte first, or RGB888; swapped on request. */
  function PixelBytes(c: Rgb, out565: bool, swap: bool): (b: seq<byte>)
    ensures |b| == OutBytes(out565)
  {
    if out565 then
      Colour565Bound(c);
      if swap then [Colour565(c) / 256, Colour565(c) % 256] else [Colour565(c) % 256, Colour565(c) / 256]
    else if swap then [c.b, c.g, c.r] else [c.r, c.g, c.b]
  }

  lemma Colour565Bound(c: Rgb)
    ensures Colour565(c) < 65536
  {
  }

  /** Byte offset of output pixel `k`. */
  function Offset(out565: bool, k: nat): nat {
    if out565 then 2 * k else 3 * k
  }

  /** The output buffer shows `img` wherever something has been written. */
  ghost predicate Shows(outbuf: array<byte>, img: seq<Rgb>, count: seq<nat>, out565: bool, swap: bool)
    reads outbuf
  {
    && |img| == |count| && Offset(out565, |img|) <= outbuf.Length
    && forall k :: 0 <= k < |img| && count[k] > 0 ==> ShowsAt(outbuf, k, img[k], out565, swap)
  }

  ghost predicate ShowsAt(outbuf: array<byte>, k: nat, c: Rgb, out565: bool, swap: bool)
    reads outbuf
  {
    && Offset(out565, k) + OutBytes(out565) <= outbuf.Length
    && forall b :: 0 <= b < OutBytes(out565) ==> outbuf[Offset(out565, k) + b] == PixelBytes(c, out565, swap)[b]
  }

  /** Bytes per pixel of the bitmap, by the format the decompressor is built for. */
  function InOffset(in565: bool, j: nat): nat {
    if in565 then 2 * j else 3 * j
  }

  /** One output pixel from the bitmap at `inp`: copied, or converted to RGB565 here. */
  method PutOut(outbuf: array<byte>, mem: array<byte>, dst: nat, inp: nat, in565: bool, out565: bool, swap: bool,
                ghost k: nat, ghost j: nat, ghost out: seq<Rgb>, ghost img: seq<Rgb>, ghost count: seq<nat>)
    requires outbuf != mem && Delivered(mem, out, in565) && (in565 ==> out565) && j < |out| && k < |img|
    requires Shows(outbuf, img, count, out565, swap) && dst == Offset(out565, k) && inp == InOffset(in565, j)
    modifies outbuf
    ensures Shows(outbuf, img[k := out[j]], count[k := count[k] + 1], out565, swap)
  {
    ghost var c := out[j];
    OffsetsApart(out565, k, |img|);
    if in565 {
      Colour565Bound(c);
      if swap {
        outbuf[dst], outbuf[dst + 1] := mem[inp + 1], mem[inp];
      } else {
        outbuf[dst], outbuf[dst + 1] := mem[inp], mem[inp + 1];
      }
    } else {
      assert Stored(mem, j) == c;
      if !out565 {
        if swap {
          outbuf[dst], outbuf[dst + 1], outbuf[dst + 2] := mem[inp + 2], mem[inp + 1], mem[inp];
        } else {
          outbuf[dst], outbuf[dst + 1], outbuf[dst + 2] := mem[inp], mem[inp + 1], mem[inp + 2];
        }
      } else {
        Colour565Bound(c);
        var colour := Colour565(Rgb(mem[inp], mem[inp + 1], mem[inp + 2]));
        if swap {
          outbuf[dst], outbuf[dst + 1] := colour / 256, colour % 256;
        } else {
          outbuf[dst + 1], outbuf[dst] := colour / 256, colour % 256;
        }
      }
    }
    ShowsMore(outbuf, old(outbuf[..]), img, count, out565, swap, k, c);
  }

  lemma OffsetsApart(out565: bool, k: nat, n: nat)
    requires k < n
    ensures Offset(out565, k) + OutBytes(out565) <= Offset(out565, n)
  {
  }

  lemma ShowsMore(outbuf: array<byte>, before: seq<byte>, img: seq<Rgb>, count: seq<nat>, out565: bool, swap: bool, k: nat, c: Rgb)
    requires |img| == |count| && k < |img| && Offset(out565, |img|) <= outbuf.Length == |before|
    requires forall i, b :: 0 <= i < |img| && count[i] > 0 && 0 <= b < OutBytes(out565) ==>
               before[Offset(out565, i) + b] == PixelBytes(img[i], out565, swap)[b]
    requires forall at :: 0 <= at < outbuf.Length && !(Offset(out565, k) <= at < Offset(out565, k) + OutBytes(out565)) ==> outbuf[at] == before[at]
    requires forall b :: 0 <= b < OutBytes(out565) ==> outbuf[Offset(out565, k) + b] == PixelBytes(c, out565, swap)[b]
    ensures Shows(outbuf, img[k := c], count[k := count[k] + 1], out565, swap)
  {
    hide PixelBytes;
    var img', count' := img[k := c], count[k := count[k] + 1];
    forall i | 0 <= i < |img'| && count'[i] > 0 ensures ShowsAt(outbuf, i, img'[i], out565, swap) {
      if i < k {
        OffsetsApart(out565, i, k);
      } else if i > k {
        OffsetsApart(out565, k, i);
      }
      OffsetsApart(out565, i, |img|);
    }
  }

  /** One output row of a rectangle: `n` pixels from output pixel `k0` on, from bitmap pixel `j0` on. */
  method OutRow(outbuf: array<byte>, mem: array<byte>, k0: nat, j0: nat, n: nat, in565: bool, out565: bool, swap: bool,
                ghost out: seq<Rgb>, ghost img0: seq<Rgb>, ghost count0: seq<nat>)
    returns (ghost img: seq<Rgb>, ghost count: seq<nat>)
    requires outbuf != mem && Delivered(mem, out, in565) && (in565 ==> out565) && j0 + n <= |out| && k0 + n <= |img0|
    requires Shows(outbuf, img0, count0, out565, swap)
    modifies outbuf
    ensures Shows(outbuf, img, count, out565, swap) && |img| == |img0| == |count|
    ensures forall k :: 0 <= k < |img| ==>
              if k0 <= k < k0 + n then img[k] == out[j0 + (k - k0)] && count[k] == count0[k] + 1
              else img[k] == img0[k] && count[k] == count0[k]
  {
    hide Delivered, Shows;
    img, count := img0, count0;
    ShowsLengths(outbuf, img, count, out565, swap);
    for i := 0 to n
      invariant Shows(outbuf, img, count, out565, swap) && Delivered(mem, out, in565) && |img| == |img0| == |count|
      invariant forall k :: 0 <= k < |img| ==>
                  if k0 <= k < k0 + i then img[k] == out[j0 + (k - k0)] && count[k] == count0[k] + 1
                  else img[k] == img0[k] && count[k] == count0[k]
    {
      PutOut(outbuf, mem, Offset(out565, k0 + i), InOffset(in565, j0 + i), in565, out565, swap, k0 + i, j0 + i, out, img, count);
      img, count := img[k0 + i := out[j0 + i]], count[k0 + i := count[k0 + i] + 1];
    }
  }

  lemma ShowsLengths(outbuf: array<byte>, img: seq<Rgb>, count: seq<nat>, out565: bool, swap: bool)
    requires Shows(outbuf, img, count, out565, swap)
    ensures |img| == |count|
  {
  }

  /** Output pixel `k` is in the rectangle; its rows are `line` pixels apart. */
  predicate InRect(rect: Rect, line: nat, k: nat)
    requires line > 0
  {
    rect.left <= k % line <= rect.right && rect.top <= k / line <= rect.bottom
  }

  /** The bitmap pixel of an output pixel of the rectangle. */
  function BitmapIndex(rect: Rect, line: nat, k: nat): nat
    requires line > 0 && InRect(rect, line, k)
  {
    Rows(k / line - rect.top, rect.right - rect.left + 1) + (k % line - rect.left)
  }

  lemma RowSlot(line: nat, left: nat, n: nat, y: nat, k: nat)
    requires line > 0 && left + n <= line
    ensures Rows(y, line) + left <= k < Rows(y, line) + left + n <==> k / line == y && left <= k % line < left + n
    ensures k / line == y ==> k % line == k - Rows(y, line)
  {
    RowsAre(y, line);
    var q, r := DivMod(k, line);
    if Rows(y, line) + left <= k < Rows(y, line) + left + n {
      DivModUnique(k, line, y, k - y * line);
    }
  }

  /** The pixels `img` and the numbers of writes `count` after the rows of the rectangle before row `y`. */
  ghost predicate RowsPlaced(rect: Rect, line: nat, y: nat, out: seq<Rgb>, img0: seq<Rgb>, count0: seq<nat>, img: seq<Rgb>, count: seq<nat>)
    requires line > 0
  {
    && |img| == |img0| == |count| == |count0|
    && forall k :: 0 <= k < |img| ==> PixelPlaced(rect, line, y, out, k, img0[k], count0[k], img[k], count[k])
  }

  ghost predicate PixelPlaced(rect: Rect, line: nat, y: nat, out: seq<Rgb>, k: nat, c0: Rgb, n0: nat, c: Rgb, n: nat)
    requires line > 0
  {
    if InRect(rect, line, k) && k / line < y then
      BitmapIndex(rect, line, k) < |out| && c == out[BitmapIndex(rect, line, k)] && n == n0 + 1
    else c == c0 && n == n0
  }

  lemma RowAdded(rect: Rect, line: nat, y: nat, rx: nat, out: seq<Rgb>, img0: seq<Rgb>, count0: seq<nat>,
                 img: seq<Rgb>, count: seq<nat>, img': seq<Rgb>, count': seq<nat>)
    requires line > 0 && rect.left + rx <= line && rect.left + rx == rect.right + 1 && rect.top <= y <= rect.bottom
    requires RowsPlaced(rect, line, y, out, img0, count0, img, count) && |img'| == |count'| == |img|
    requires Rows(y - rect.top, rx) + rx <= |out|
    requires forall k :: 0 <= k < |img| ==>
               if Rows(y, line) + rect.left <= k < Rows(y, line) + rect.left + rx
               then img'[k] == out[Rows(y - rect.top, rx) + (k - (Rows(y, line) + rect.left))] && count'[k] == count[k] + 1
               else img'[k] == img[k] && count'[k] == count[k]
    ensures RowsPlaced(rect, line, y + 1, out, img0, count0, img', count')
  {
    hide Rows;
    forall k | 0 <= k < |img'| ensures PixelPlaced(rect, line, y + 1, out, k, img0[k], count0[k], img'[k], count'[k]) {
      assert PixelPlaced(rect, line, y, out, k, img0[k], count0[k], img[k], count[k]);
      RowSlot(line, rect.left, rx, y, k);
    }
  }

  /** `jpeg_decode_out_cb`: the bitmap of a rectangle goes to its place, each of its pixels once. */
  method OutCb(outbuf: array<byte>, mem: array<byte>, rect: Rect, line: nat, in565: bool, out565: bool, swap: bool,
               ghost out: seq<Rgb>, ghost img0: seq<Rgb>, ghost count0: seq<nat>)
    returns (ghost img: seq<Rgb>, ghost count: seq<nat>)
    requires outbuf != mem && Delivered(mem, out, in565) && (in565 ==> out565) && Shows(outbuf, img0, count0, out565, swap)
    requires rect.left <= rect.right < line && rect.top <= rect.bottom
    requires |out| == Rows(rect.bottom - rect.top + 1, rect.right - rect.left + 1) && Rows(rect.bottom + 1, line) <= |img0|
    modifies outbuf
    ensures Shows(outbuf, img, count, out565, swap)
    ensures RowsPlaced(rect, line, rect.bottom + 1, out, img0, count0, img, count)
  {
    hide Delivered, Shows, Rows, RowsPlaced, Offset, InOffset;
    img, count := img0, count0;
    ShowsLengths(outbuf, img, count, out565, swap);
    NoRows(rect, line, out, img, count);
    var rx := rect.right - rect.left + 1;
    var y := rect.top;
    while y <= rect.bottom
      invariant rect.top <= y <= rect.bottom + 1 && Shows(outbuf, img, count, out565, swap) && Delivered(mem, out, in565)
      invariant RowsPlaced(rect, line, y, out, img0, count0, img, count)
    {
      PlacedLengths(rect, line, y, out, img0, count0, img, count);
      RowsNext(y - rect.top, rx);
      RowsMonotone(y - rect.top + 1, rect.bottom - rect.top + 1, rx, rx);
      RowsNext(y, line);
      RowsMonotone(y + 1, rect.bottom + 1, line, line);
      ghost var img', count' := img, count;
      img, count := OutRow(outbuf, mem, Rows(y, line) + rect.left, Rows(y - rect.top, rx), rx, in565, out565, swap, out, img, count);
      RowAdded(rect, line, y, rx, out, img0, count0, img', count', img, count);
      y := y + 1;
    }
  }

  lemma NoRows(rect: Rect, line: nat, out: seq<Rgb>, img: seq<Rgb>, count: seq<nat>)
    requires line > 0 && |img| == |count|
    ensures RowsPlaced(rect, line, rect.top, out, img, count, img, count)
  {
  }

  lemma PlacedLengths(rect: Rect, line: nat, y: nat, out: seq<Rgb>, img0: seq<Rgb>, count0: seq<nat>, img: seq<Rgb>, count: seq<nat>)
    requires line > 0 && RowsPlaced(rect, line, y, out, img0, count0, img, count)
    ensures |img| == |img0| == |count| == |count0|
  {
  }

  // ---------- the whole image ----------

  /** The samples of every MCU, by row and column, as `mcu_load` leaves them. */
  type Mcus = seq<seq<seq<byte>>>

  ghost predicate McusOk(f: Frame, build: Build, mcus: Mcus) {
    && f.Ok()
    && forall r, c :: 0 <= r && 0 <= c && Start(f.g.my, r) < f.height && Start(f.g.mx, c) < f.width ==>
         McuAt(f, build, mcus, r, c)
  }

  ghost predicate McuAt(f: Frame, build: Build, mcus: Mcus, r: int, c: int) {
    0 <= r < |mcus| && 0 <= c < |mcus[r]| && |mcus[r][c]| == MemoryBytes(f.g, build)
  }

  /** How many output pixels there are. */
  function Size(f: Frame): nat {
    Rows(f.Lines(), f.Line())
  }

  /** The MCU column and row that own output pixel `k`. */
  function ColumnOf(f: Frame, k: nat): nat
    requires f.Line() > 0
  {
    Owner(f.scale, f.g.mx, k % f.Line())
  }

  function RowOf(f: Frame, k: nat): nat
    requires f.Line() > 0
  {
    Owner(f.scale, f.g.my, k / f.Line())
  }

  lemma InImage(f: Frame, k: nat)
    requires f.Ok() && k < Size(f)
    ensures f.Line() > 0 && k % f.Line() < f.Line() && k / f.Line() < f.Lines()
    ensures Start(f.g.mx, ColumnOf(f, k)) < f.width && Start(f.g.my, RowOf(f, k)) < f.height
  {
    hide Scaled, Owner, Start;
    RowsAre(f.Lines(), f.Line());
    if f.Line() == 0 {
      assert false;
    }
    var q, r := DivMod(k, f.Line());
    if q >= f.Lines() {
      MulMonotone(f.Lines(), q, f.Line());
    }
    OwnerExists(f.scale, f.g.mx, f.width, r);
    OwnerExists(f.scale, f.g.my, f.height, q);
  }

  /** The pixel of an MCU, `x` and `y` counted in output pixels from the MCU's corner. */
  ghost function McuPixel(f: Frame, build: Build, mcu: seq<byte>, x: int, y: int): Rgb
    requires f.g.Ok() && f.scale <= 3 && |mcu| == MemoryBytes(f.g, build)
  {
    var px := Averaged(mcu, f.g, build, f.scale);
    if 0 <= x && 0 <= y && Rows(y, Scaled(f.scale, f.g.mx)) + x < |px| then px[Rows(y, Scaled(f.scale, f.g.mx)) + x] else Rgb(0, 0, 0)
  }

  /** What output pixel `k` must be: the pixel of its owner. */
  ghost function Expected(f: Frame, build: Build, mcus: Mcus, k: nat): Rgb
    requires McusOk(f, build, mcus) && k < Size(f)
  {
    InImage(f, k);
    var c, r := ColumnOf(f, k), RowOf(f, k);
    assert McuAt(f, build, mcus, r, c);
    McuPixel(f, build, mcus[r][c], k % f.Line() - Scaled(f.scale, Start(f.g.mx, c)), k / f.Line() - Scaled(f.scale, Start(f.g.my, r)))
  }

  /** The MCUs in decoding order before row `r`, column `c`. */
  predicate Earlier(f: Frame, r: nat, c: nat, k: nat)
    requires f.Line() > 0
  {
    RowOf(f, k) < r || (RowOf(f, k) == r && ColumnOf(f, k) < c)
  }

  /** The pixels of earlier MCUs have been written once, with the right value; the others not at all. */
  ghost predicate ImageSoFar(f: Frame, build: Build, mcus: Mcus, r: nat, c: nat, img: seq<Rgb>, count: seq<nat>)
    requires McusOk(f, build, mcus)
  {
    |img| == |count| == Size(f) && forall k :: 0 <= k < Size(f) ==> PixelSoFar(f, build, mcus, r, c, k, img[k], count[k])
  }

  ghost predicate PixelSoFar(f: Frame, build: Build, mcus: Mcus, r: nat, c: nat, k: nat, p: Rgb, n: nat)
    requires McusOk(f, build, mcus) && k < Size(f)
  {
    InImage(f, k);
    if Earlier(f, r, c, k) then p == Expected(f, build, mcus, k) && n == 1 else n == 0
  }

  lemma ImageStart(f: Frame, build: Build, mcus: Mcus, img: seq<Rgb>, count: seq<nat>)
    requires McusOk(f, build, mcus) && |img| == |count| == Size(f) && forall k :: 0 <= k < |count| ==> count[k] == 0
    ensures ImageSoFar(f, build, mcus, 0, 0, img, count)
  {
    hide Expected;
    forall k | 0 <= k < Size(f) ensures PixelSoFar(f, build, mcus, 0, 0, k, img[k], count[k]) {
      InImage(f, k);
    }
  }

  /** After the last column comes the next row. */
  lemma RowDone(f: Frame, build: Build, mcus: Mcus, r: nat, c: nat, img: seq<Rgb>, count: seq<nat>)
    requires McusOk(f, build, mcus) && ImageSoFar(f, build, mcus, r, c, img, count) && Start(f.g.mx, c) >= f.width
    ensures ImageSoFar(f, build, mcus, r + 1, 0, img, count)
  {
    hide Expected, Size, Owner;
    forall k | 0 <= k < Size(f) ensures PixelSoFar(f, build, mcus, r + 1, 0, k, img[k], count[k]) {
      InImage(f, k);
      assert PixelSoFar(f, build, mcus, r, c, k, img[k], count[k]);
    }
  }

  /** After the last row every pixel has been written once. */
  lemma ImageDone(f: Frame, build: Build, mcus: Mcus, r: nat, img: seq<Rgb>, count: seq<nat>)
    requires McusOk(f, build, mcus) && ImageSoFar(f, build, mcus, r, 0, img, count) && Start(f.g.my, r) >= f.height
    ensures |img| == |count| == Size(f)
    ensures forall k :: 0 <= k < Size(f) ==> img[k] == Expected(f, build, mcus, k) && count[k] == 1
  {
    hide Expected, Size, Owner;
    forall k | 0 <= k < Size(f) ensures img[k] == Expected(f, build, mcus, k) && count[k] == 1 {
      InImage(f, k);
      assert PixelSoFar(f, build, mcus, r, 0, k, img[k], count[k]);
    }
  }

  /** The rectangle of an MCU whose extents are `rx` and `ry`. */
  function RectOf(f: Frame, c: nat, r: nat): Rect
    requires Start(f.g.mx, c) < f.width && Start(f.g.my, r) < f.height
    requires Extent(Start(f.g.mx, c), f.g.mx, f.width, f.scale) > 0 && Extent(Start(f.g.my, r), f.g.my, f.height, f.scale) > 0
  {
    var left, top := Scaled(f.scale, Start(f.g.mx, c)), Scaled(f.scale, Start(f.g.my, r));
    Rect(left, left + Extent(Start(f.g.mx, c), f.g.mx, f.width, f.scale) - 1, top, top + Extent(Start(f.g.my, r), f.g.my, f.height, f.scale) - 1)
  }

  /** The pixels an MCU hands over. */
  ghost function Handed(f: Frame, build: Build, mcu: seq<byte>, rx: nat, ry: nat): seq<Rgb>
    requires f.Ok() && |mcu| == MemoryBytes(f.g, build) && 0 < rx <= Scaled(f.scale, f.g.mx)
    requires Rows(ry, Scaled(f.scale, f.g.mx)) <= OutPixels(f.g, f.scale)
  {
    Cropped(Averaged(mcu, f.g, build, f.scale), Scaled(f.scale, f.g.mx), rx, ry)
  }

  /** An output pixel is in the rectangle of an MCU exactly when the MCU owns it. */
  lemma InRectIffOwned(f: Frame, c: nat, r: nat, k: nat)
    requires f.Ok() && Start(f.g.mx, c) < f.width && Start(f.g.my, r) < f.height && k < Size(f)
    requires Extent(Start(f.g.mx, c), f.g.mx, f.width, f.scale) > 0 && Extent(Start(f.g.my, r), f.g.my, f.height, f.scale) > 0
    ensures f.Line() > 0 && (InRect(RectOf(f, c, r), f.Line(), k) <==> ColumnOf(f, k) == c && RowOf(f, k) == r)
  {
    hide Scaled, Extent, Owner, Start, Size;
    InImage(f, k);
    IntervalsPartition(f.scale, f.g.mx, f.width, c, k % f.Line());
    IntervalsPartition(f.scale, f.g.my, f.height, r, k / f.Line());
  }

  /** What the rectangle gets is what its pixels must be. */
  lemma HandedIsExpected(f: Frame, build: Build, mcus: Mcus, c: nat, r: nat, k: nat)
    requires McusOk(f, build, mcus) && Start(f.g.mx, c) < f.width && Start(f.g.my, r) < f.height && k < Size(f)
    requires Extent(Start(f.g.mx, c), f.g.mx, f.width, f.scale) > 0 && Extent(Start(f.g.my, r), f.g.my, f.height, f.scale) > 0
    requires f.Line() > 0 && InRect(RectOf(f, c, r), f.Line(), k) && ColumnOf(f, k) == c && RowOf(f, k) == r
    ensures McuAt(f, build, mcus, r, c)
    ensures var rx, ry := Extent(Start(f.g.mx, c), f.g.mx, f.width, f.scale), Extent(Start(f.g.my, r), f.g.my, f.height, f.scale);
            && rx <= Scaled(f.scale, f.g.mx) && Rows(ry, Scaled(f.scale, f.g.mx)) <= OutPixels(f.g, f.scale)
            && BitmapIndex(RectOf(f, c, r), f.Line(), k) < |Handed(f, build, mcus[r][c], rx, ry)|
            && Handed(f, build, mcus[r][c], rx, ry)[BitmapIndex(RectOf(f, c, r), f.Line(), k)] == Expected(f, build, mcus, k)
  {
    hide Scaled, Extent, Owner, Start, Size, Averaged, Cropped, OutPixels, Rows, ColumnOf, RowOf;
    InImage(f, k);
    var rx, ry := Extent(Start(f.g.mx, c), f.g.mx, f.width, f.scale), Extent(Start(f.g.my, r), f.g.my, f.height, f.scale);
    ExtentFits(f.g, build, f.scale, Start(f.g.mx, c), Start(f.g.my, r), f.width, f.height);
    assert McuAt(f, build, mcus, r, c);
    var rect := RectOf(f, c, r);
    CroppedAt(Averaged(mcus[r][c], f.g, build, f.scale), Scaled(f.scale, f.g.mx), rx, ry, k % f.Line() - rect.left, k / f.Line() - rect.top);
  }

  /** One MCU placed. */
  lemma McuAdded(f: Frame, build: Build, mcus: Mcus, r: nat, c: nat, out: seq<Rgb>, img0: seq<Rgb>, count0: seq<nat>, img: seq<Rgb>, count: seq<nat>)
    requires McusOk(f, build, mcus) && ImageSoFar(f, build, mcus, r, c, img0, count0) && f.Line() > 0
    requires Start(f.g.mx, c) < f.width && Start(f.g.my, r) < f.height
    requires Extent(Start(f.g.mx, c), f.g.mx, f.width, f.scale) > 0 && Extent(Start(f.g.my, r), f.g.my, f.height, f.scale) > 0
    requires McuAt(f, build, mcus, r, c)
    requires var rx, ry := Extent(Start(f.g.mx, c), f.g.mx, f.width, f.scale), Extent(Start(f.g.my, r), f.g.my, f.height, f.scale);
             rx <= Scaled(f.scale, f.g.mx) && Rows(ry, Scaled(f.scale, f.g.mx)) <= OutPixels(f.g, f.scale)
             && out == Handed(f, build, mcus[r][c], rx, ry)
    requires RowsPlaced(RectOf(f, c, r), f.Line(), RectOf(f, c, r).bottom + 1, out, img0, count0, img, count)
    ensures ImageSoFar(f, build, mcus, r, c + 1, img, count)
  {
    hide Scaled, Extent, Owner, Start, Size, Rows, Expected, Handed, BitmapIndex, OutPixels, RectOf, McusOk, Frame.Line, Frame.Ok;
    var rect := RectOf(f, c, r);
    forall k | 0 <= k < Size(f) ensures PixelSoFar(f, build, mcus, r, c + 1, k, img[k], count[k]) {
      FrameOk(f, build, mcus);
      assert PixelSoFar(f, build, mcus, r, c, k, img0[k], count0[k]);
      assert PixelPlaced(rect, f.Line(), rect.bottom + 1, out, k, img0[k], count0[k], img[k], count[k]);
      InRectIffOwned(f, c, r, k);
      if InRect(rect, f.Line(), k) {
        HandedIsExpected(f, build, mcus, c, r, k);
      }
    }
  }

  lemma FrameOk(f: Frame, build: Build, mcus: Mcus)
    requires McusOk(f, build, mcus)
    ensures f.Ok()
  {
  }

  /** An MCU whose rectangle vanishes owns no output pixel. */
  lemma McuSkipped(f: Frame, build: Build, mcus: Mcus, r: nat, c: nat, img: seq<Rgb>, count: seq<nat>)
    requires McusOk(f, build, mcus) && ImageSoFar(f, build, mcus, r, c, img, count)
    requires Start(f.g.mx, c) < f.width && Start(f.g.my, r) < f.height
    requires Extent(Start(f.g.mx, c), f.g.mx, f.width, f.scale) == 0 || Extent(Start(f.g.my, r), f.g.my, f.height, f.scale) == 0
    ensures ImageSoFar(f, build, mcus, r, c + 1, img, count)
  {
    hide Scaled, Extent, Owner, Start, Size, Expected;
    forall k | 0 <= k < Size(f) ensures PixelSoFar(f, build, mcus, r, c + 1, k, img[k], count[k]) {
      InImage(f, k);
      assert PixelSoFar(f, build, mcus, r, c, k, img[k], count[k]);
      IntervalsPartition(f.scale, f.g.mx, f.width, c, k % f.Line());
      IntervalsPartition(f.scale, f.g.my, f.height, r, k / f.Line());
    }
  }

  /** One turn of the MCU loop: the samples are loaded, converted and handed over. */
  method PlaceMcu(outbuf: array<byte>, f: Frame, build: Build, mcus: Mcus, r: nat, c: nat, in565: bool, out565: bool, swap: bool,
                  ghost img0: seq<Rgb>, ghost count0: seq<nat>)
    returns (ghost img: seq<Rgb>, ghost count: seq<nat>)
    requires McusOk(f, build, mcus) && Start(f.g.mx, c) < f.width && Start(f.g.my, r) < f.height && (in565 ==> out565)
    requires Shows(outbuf, img0, count0, out565, swap) && ImageSoFar(f, build, mcus, r, c, img0, count0)
    modifies outbuf
    ensures Shows(outbuf, img, count, out565, swap) && ImageSoFar(f, build, mcus, r, c + 1, img, count)
  {
    hide Shows, ImageSoFar, Delivered, RowsPlaced, Scaled, Extent, Start, Averaged, Cropped, Rows, OutPixels, MemoryBytes, Geometry.Ok, McusOk;
    FrameOk(f, build, mcus);
    SamplesThere(f, build, mcus, r, c);
    img, count := img0, count0;
    var mem := LoadSamples(mcus[r][c]);
    var x, y := Start(f.g.mx, c), Start(f.g.my, r);
    var called, rect := OutputMcu(mem, f.g, build, f.scale, in565, x, y, f.width, f.height);
    if called {
      PlaceFits(f, build, mcus, c, r, img0, count0);
      ghost var out := Handed(f, build, mcus[r][c], Extent(x, f.g.mx, f.width, f.scale), Extent(y, f.g.my, f.height, f.scale));
      img, count := OutCb(outbuf, mem, rect, f.Line(), in565, out565, swap, out, img0, count0);
      McuAdded(f, build, mcus, r, c, out, img0, count0, img, count);
    } else {
      McuSkipped(f, build, mcus, r, c, img0, count0);
    }
  }

  lemma SamplesThere(f: Frame, build: Build, mcus: Mcus, r: nat, c: nat)
    requires McusOk(f, build, mcus) && Start(f.g.mx, c) < f.width && Start(f.g.my, r) < f.height
    ensures McuAt(f, build, mcus, r, c)
  {
  }

  /** Stands for `mcu_load`: the samples of the MCU are in memory. */
  method LoadSamples(samples: seq<byte>) returns (mem: array<byte>)
    ensures fresh(mem) && mem[..] == samples
  {
    mem := new byte[|samples|];
    for i := 0 to |samples|
      invariant mem[..i] == samples[..i]
    {
      mem[i] := samples[i];
    }
  }

  /** The rectangle lies in the output image. */
  lemma PlaceFits(f: Frame, build: Build, mcus: Mcus, c: nat, r: nat, img: seq<Rgb>, count: seq<nat>)
    requires McusOk(f, build, mcus) && Start(f.g.mx, c) < f.width && Start(f.g.my, r) < f.height
    requires Extent(Start(f.g.mx, c), f.g.mx, f.width, f.scale) > 0 && Extent(Start(f.g.my, r), f.g.my, f.height, f.scale) > 0
    requires ImageSoFar(f, build, mcus, r, c, img, count)
    ensures var rect := RectOf(f, c, r);
            && rect.left <= rect.right < f.Line() && rect.top <= rect.bottom && Rows(rect.bottom + 1, f.Line()) <= |img|
            && rect.right - rect.left + 1 == Extent(Start(f.g.mx, c), f.g.mx, f.width, f.scale)
            && rect.bottom - rect.top + 1 == Extent(Start(f.g.my, r), f.g.my, f.height, f.scale)
  {
    hide Scaled, Extent, Owner, Start, Rows, Expected, PixelSoFar;
    var rect := RectOf(f, c, r);
    IntervalsPartition(f.scale, f.g.mx, f.width, c, rect.right);
    IntervalsPartition(f.scale, f.g.my, f.height, r, rect.bottom);
    RowsMonotone(rect.bottom + 1, f.Lines(), f.Line(), f.Line());
  }

  lemma StartNext(m: nat, c: nat)
    requires m in {8, 16}
    ensures Start(m, 0) == 0 && Start(m, c + 1) == Start(m, c) + m
  {
  }

  /**
   The pixels of a whole image (the loops of `jd_decomp` with `mcu_output` and `jpeg_decode_out_cb`), for every
   size, MCU geometry, scale and format: an output buffer of exactly `outsize` bytes is enough, every output
   pixel is written exactly once, and it is the average of its square in the MCU it lies in.
   */
  method DecodePixels(outbuf: array<byte>, f: Frame, build: Build, mcus: Mcus, in565: bool, out565: bool, swap: bool)
    returns (ghost img: seq<Rgb>, ghost count: seq<nat>)
    requires McusOk(f, build, mcus) && (in565 ==> out565) && outbuf.Length == Offset(out565, Size(f))
    modifies outbuf
    ensures Shows(outbuf, img, count, out565, swap) && |img| == |count| == Size(f)
    ensures forall k :: 0 <= k < Size(f) ==> img[k] == Expected(f, build, mcus, k) && count[k] == 1
  {
    hide Shows, ImageSoFar, Expected, Size, McusOk, Start;
    img, count := seq(Size(f), _ => Rgb(0, 0, 0)), seq(Size(f), _ => 0);
    FrameOk(f, build, mcus);
    ImageStart(f, build, mcus, img, count);
    NothingShown(outbuf, img, count, out565, swap);
    StartNext(f.g.my, 0);
    var y := 0;
    var r := 0;
    while y < f.height
      invariant y == Start(f.g.my, r) && Shows(outbuf, img, count, out565, swap) && ImageSoFar(f, build, mcus, r, 0, img, count)
      decreases f.height - y
    {
      StartNext(f.g.mx, 0);
      var x := 0;
      var c := 0;
      while x < f.width
        invariant x == Start(f.g.mx, c) && Shows(outbuf, img, count, out565, swap) && ImageSoFar(f, build, mcus, r, c, img, count)
        decreases f.width - x
      {
        img, count := PlaceMcu(outbuf, f, build, mcus, r, c, in565, out565, swap, img, count);
        StartNext(f.g.mx, c);
        x, c := x + f.g.mx, c + 1;
      }
      RowDone(f, build, mcus, r, c, img, count);
      StartNext(f.g.my, r);
      y, r := y + f.g.my, r + 1;
    }
    ImageDone(f, build, mcus, r, img, count);
  }

  lemma NothingShown(outbuf: array<byte>, img: seq<Rgb>, count: seq<nat>, out565: bool, swap: bool)
    requires |img| == |count| && outbuf.Length == Offset(out565, |img|) && forall k :: 0 <= k < |count| ==> count[k] == 0
    ensures Shows(outbuf, img, count, out565, swap)
  {
  }

  /**
   So every output pixel shows the samples of the MCU it lies in, at its place there, when the samples are such
   that the clipping clamps.
   */
  lemma ImageShowsSamples(f: Frame, build: Build, mcus: Mcus, k: nat)
    requires McusOk(f, build, mcus) && k < Size(f)
    ensures f.Line() > 0
    ensures var c, r := ColumnOf(f, k), RowOf(f, k);
            var x, y := k % f.Line() - Scaled(f.scale, Start(f.g.mx, c)), k / f.Line() - Scaled(f.scale, Start(f.g.my, r));
            && McuAt(f, build, mcus, r, c) && 0 <= x < Scaled(f.scale, f.g.mx) && 0 <= y < Scaled(f.scale, f.g.my)
            && (Clamps(mcus[r][c], f.g, build) ==> Pictures(Expected(f, build, mcus, k), mcus[r][c], f.g, build, f.scale, x, y))
  {
    hide Scaled, Extent, Owner, Start, Size, Averaged, OutPixels, Rows, Clamps, Pictures;
    InImage(f, k);
    var c, r := ColumnOf(f, k), RowOf(f, k);
    assert McuAt(f, build, mcus, r, c);
    IntervalsPartition(f.scale, f.g.mx, f.width, c, k % f.Line());
    IntervalsPartition(f.scale, f.g.my, f.height, r, k / f.Line());
    ExtentScaled(Start(f.g.mx, c), f.g.mx, f.width, f.scale);
    ExtentScaled(Start(f.g.my, r), f.g.my, f.height, f.scale);
    var x, y := k % f.Line() - Scaled(f.scale, Start(f.g.mx, c)), k / f.Line() - Scaled(f.scale, Start(f.g.my, r));
    InOutput(f.g, f.scale, x, y);
    if Clamps(mcus[r][c], f.g, build) {
      AveragedShows(mcus[r][c], f.g, build, f.scale, x, y);
    }
  }

  /** The square an output pixel averages is the one at its place in the image. */
  lemma SquareAtPlace(f: Frame, k: nat)
    requires f.Ok() && f.scale <= 2 && k < Size(f)
    ensures f.Line() > 0
    ensures var c, r := ColumnOf(f, k), RowOf(f, k);
            var x, y := k % f.Line() - Scaled(f.scale, Start(f.g.mx, c)), k / f.Line() - Scaled(f.scale, Start(f.g.my, r));
            && x >= 0 && Start(f.g.mx, c) + Times(f.scale, x) == Width(f.scale) * (k % f.Line())
            && y >= 0 && Start(f.g.my, r) + Times(f.scale, y) == Width(f.scale) * (k / f.Line())
  {
    hide Size, Scaled, Start, Owner, Times, Width;
    InImage(f, k);
    SideAtPlace(f.scale, f.g.mx, k % f.Line());
    SideAtPlace(f.scale, f.g.my, k / f.Line());
  }

  lemma SideAtPlace(scale: nat, m: nat, u: nat)
    requires scale <= 2 && m in {8, 16}
    ensures var c := Owner(scale, m, u);
            Scaled(scale, Start(m, c)) <= u && Start(m, c) + Times(scale, u - Scaled(scale, Start(m, c))) == Width(scale) * u
  {
    hide Scaled, Start, Owner, Times, Width;
    if m == 8 {
      NarrowAtPlace(scale, u);
    } else {
      WideAtPlace(scale, u);
    }
  }

  lemma NarrowAtPlace(scale: nat, u: nat)
    requires scale <= 2
    ensures var c := Owner(scale, 8, u);
            Scaled(scale, Start(8, c)) <= u && Start(8, c) + Times(scale, u - Scaled(scale, Start(8, c))) == Width(scale) * u
  {
    if scale == 0 {
      WholeSide(u, 8);
    } else if scale == 1 {
      WholeSide(u, 4);
      assert Owner(1, 8, u) == u / 4;
    } else {
      WholeSide(u, 2);
      assert Owner(2, 8, u) == u / 2;
    }
  }

  lemma WholeSide(u: nat, n: nat)
    requires n > 0
    ensures n * (u / n) <= u
  {
  }

  lemma WideAtPlace(scale: nat, u: nat)
    requires scale <= 2
    ensures var c := Owner(scale, 16, u);
            Scaled(scale, Start(16, c)) <= u && Start(16, c) + Times(scale, u - Scaled(scale, Start(16, c))) == Width(scale) * u
  {
    if scale == 0 {
      WholeSide(u, 16);
    } else if scale == 1 {
      WholeSide(u, 8);
      assert Owner(1, 16, u) == u / 8;
    } else {
      WholeSide(u, 4);
      assert Owner(2, 16, u) == u / 4;
    }
  }

  lemma InOutput(g: Geometry, scale: nat, x: nat, y: nat)
    requires x < Scaled(scale, g.mx) && y < Scaled(scale, g.my)
    ensures Rows(y, Scaled(scale, g.mx)) + x < OutPixels(g, scale)
  {
    hide Scaled;
    var sw := Scaled(scale, g.mx);
    RowsNext(y, sw);
    RowsMonotone(y + 1, Scaled(scale, g.my), sw, sw);
  }
}
