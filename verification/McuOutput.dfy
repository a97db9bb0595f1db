/**
 `mcu_output`: the samples of an MCU become the pixels of its rectangle.  The RGB bytes are built in `workbuf`
 and run on into the MCU buffer behind it while that is still being read; descaling, cropping and the change
 of format then overwrite their own input.
 */
module McuOutput {
  import opened Bits

  datatype Rgb = Rgb(r: byte, g: byte, b: byte)

  /** How the decompressor is built: 16-bit samples (`JD_FASTDECODE` 1 and 2), and clipping by table (`JD_TBLCLIP`). */
  datatype Build = Build(wide: bool, table: bool)

  /** Size of an MCU in pixels: 8x8, 16x8 or 16x16. */
  datatype Geometry = Geometry(mx: nat, my: nat) {
    predicate Ok() {
      (mx == 8 && my == 8) || (mx == 16 && my == 8) || (mx == 16 && my == 16)
    }

    /** Luma blocks. */
    function Blocks(): nat {
      if mx == 8 then 1 else if my == 8 then 2 else 4
    }

    function Pixels(): nat {
      64 * Blocks()
    }

    /** Bytes of the working buffer, which the MCU buffer follows. */
    function WorkBytes(): nat {
      if mx == 8 then 256 else 128 * Blocks() + 64
    }

    function PixelIndex(ix: nat, iy: nat): nat {
      iy * mx + ix
    }

    /** Where the luma sample of a pixel is, in samples. */
    function LumaIndex(ix: nat, iy: nat): nat {
      if mx == 8 then iy * 8 + ix
      else ((if iy >= 8 then 2 else 0) + (if ix >= 8 then 1 else 0)) * 64 + (iy % 8) * 8 + ix % 8
    }

    /** Where its Cb sample is; the Cr sample is 64 further on. */
    function ChromaIndex(ix: nat, iy: nat): nat {
      if my == 16 then 256 + (iy / 2) * 8 + ix / 2
      else if mx == 16 then 128 + iy * 8 + ix / 2
      else 64 + iy * 8 + ix
    }
  }

  /** Bytes per sample: the fast builds keep 16-bit samples. */
  function SampleBytes(build: Build): nat {
    if build.wide then 2 else 1
  }

  function MemoryBytes(g: Geometry, build: Build): nat {
    g.WorkBytes() + SampleBytes(build) * 64 * (g.Blocks() + 2)
  }

  /** The `k`-th sample of the MCU buffer (little-endian when build). */
  function Sample(mem: seq<byte>, g: Geometry, build: Build, k: nat): int
    requires g.Ok() && |mem| == MemoryBytes(g, build) && k < 64 * (g.Blocks() + 2)
  {
    if !build.wide then mem[g.WorkBytes() + k]
    else
      var at := g.WorkBytes() + 2 * k;
      var v: nat := mem[at] + 256 * (mem[at + 1] as int);
      if v >= 0x8000 then v - 0x10000 else v
  }

  // ---------- colour conversion ----------

  /** Division as C does it. */
  function TruncDiv(a: int, d: int): int
    requires d > 0
  {
    if a < 0 then -(-a / d) else a / d
  }

  function Clamp(v: int): byte {
    if v < 0 then 0 else if v > 255 then 255 else v
  }

  /** The table `Clip8`, at the low ten bits of the value: 0..255, then 255 up to 511, then 0. */
  function Clip8(v: int): byte {
    var i := v % 1024;
    if i < 256 then i else if i < 512 then 255 else 0
  }

  /** `BYTECLIP`, in the two forms of it. */
  function ByteClip(build: Build, v: int): byte {
    if build.table then Clip8(v) else Clamp(v)
  }

  /** The table clamps exactly where the value, taken modulo 1024, falls on the side it came from. */
  lemma TableClamps(v: int)
    ensures Clip8(v) == Clamp(v) <==> (v < 0 ==> v % 1024 == 0 || v % 1024 >= 512) && (v > 255 ==> 255 <= v % 1024 < 512)
    ensures -512 <= v <= 511 ==> Clip8(v) == Clamp(v)
  {
  }

  /** Beyond that range it does not: 600 is clamped to 255 but looked up as 0. */
  lemma TableWraps()
    ensures Clamp(600) == 255 && Clip8(600) == 0
  {
  }

  const CVACC: int := 1024

  function Red(yy: int, cr: int): int {
    yy + TruncDiv(1435 * cr, CVACC)
  }

  function Green(yy: int, cb: int, cr: int): int {
    yy - TruncDiv(352 * cb + 731 * cr, CVACC)
  }

  function Blue(yy: int, cb: int): int {
    yy + TruncDiv(1814 * cb, CVACC)
  }

  /** YCbCr to RGB with constants scaled by 1024 and truncated: 1.402, 0.344, 0.714 and 1.772. */
  function Convert(build: Build, yy: int, cb: int, cr: int): Rgb {
    Rgb(ByteClip(build, Red(yy, cr)), ByteClip(build, Green(yy, cb, cr)), ByteClip(build, Blue(yy, cb)))
  }

  /** The colour of a pixel of the MCU. */
  function PixelOf(mem: seq<byte>, g: Geometry, build: Build, ix: nat, iy: nat): Rgb
    requires g.Ok() && |mem| == MemoryBytes(g, build) && ix < g.mx && iy < g.my
  {
    Convert(build, Sample(mem, g, build, g.LumaIndex(ix, iy)),
            Sample(mem, g, build, g.ChromaIndex(ix, iy)) - 128,
            Sample(mem, g, build, g.ChromaIndex(ix, iy) + 64) - 128)
  }

  /** All pixels of the MCU, row by row. */
  function Pixels(mem: seq<byte>, g: Geometry, build: Build): (px: seq<Rgb>)
    requires g.Ok() && |mem| == MemoryBytes(g, build)
    ensures |px| == g.Pixels()
  {
    seq(g.Pixels(), p requires 0 <= p < g.Pixels() => PixelOf(mem, g, build, p % g.mx, p / g.mx))
  }

  /** The pixel stored at index `p`. */
  function Stored(mem: array<byte>, p: int): Rgb
    requires 0 <= 3 * p && 3 * p + 2 < mem.Length
    reads mem
  {
    Rgb(mem[3 * p], mem[3 * p + 1], mem[3 * p + 2])
  }

  // ---------- building the RGB pixels ----------

  /** What a pixel reads has not been overwritten by the pixels before it. */
  lemma NotYetOverwritten(g: Geometry, build: Build, ix: nat, iy: nat)
    requires g.Ok() && ix < g.mx && iy < g.my
    ensures g.LumaIndex(ix, iy) < 64 * g.Blocks() && 64 * g.Blocks() <= g.ChromaIndex(ix, iy) < 64 * g.Blocks() + 64
    ensures 3 * g.PixelIndex(ix, iy) <= g.WorkBytes() + g.LumaIndex(ix, iy)
    ensures 3 * g.PixelIndex(ix, iy) + 3 <= g.WorkBytes() + g.ChromaIndex(ix, iy)
    ensures g.PixelIndex(ix, iy) < g.Pixels() && 3 * g.Pixels() <= MemoryBytes(g, build)
  {
  }

  /** The first `n` pixels are stored; the bytes beyond them are still those of `before`. */
  ghost predicate Built(mem: array<byte>, before: seq<byte>, px: seq<Rgb>, n: nat)
    reads mem
  {
    && n <= |px| && 3 * |px| <= mem.Length == |before|
    && (forall p :: 0 <= p < n ==> Stored(mem, p) == px[p])
    && (forall j :: 3 * n <= j < mem.Length ==> mem[j] == before[j])
  }

  /** `*pix++ = R; *pix++ = G; *pix++ = B`. */
  method PutPixel(mem: array<byte>, ghost before: seq<byte>, ghost px: seq<Rgb>, ghost n: nat, pix0: nat, c: Rgb) returns (pix: nat)
    requires Built(mem, before, px, n) && n < |px| && c == px[n] && pix0 == 3 * n
    modifies mem
    ensures Built(mem, before, px, n + 1) && pix == pix0 + 3
  {
    pix := pix0;
    mem[pix] := c.r;
    mem[pix + 1] := c.g;
    mem[pix + 2] := c.b;
    pix := pix + 3;
  }

  /** A sample of the MCU buffer, read through its pointer. */
  method ReadSample(mem: array<byte>, g: Geometry, build: Build, k: nat, ghost before: seq<byte>, ghost px: seq<Rgb>, ghost n: nat)
    returns (v: int)
    requires g.Ok() && mem.Length == MemoryBytes(g, build) && k < 64 * (g.Blocks() + 2) && Built(mem, before, px, n)
    requires 3 * n <= g.WorkBytes() + k
    ensures v == Sample(before, g, build, k)
  {
    if !build.wide {
      v := mem[g.WorkBytes() + k];
    } else {
      var at := g.WorkBytes() + 2 * k;
      var u: nat := mem[at] + 256 * (mem[at + 1] as int);
      v := if u >= 0x8000 then u - 0x10000 else u;
    }
  }

  lemma PixelAt(before: seq<byte>, g: Geometry, build: Build, ix: nat, iy: nat)
    requires g.Ok() && |before| == MemoryBytes(g, build) && ix < g.mx && iy < g.my
    ensures g.PixelIndex(ix, iy) < g.Pixels() && Pixels(before, g, build)[g.PixelIndex(ix, iy)] == PixelOf(before, g, build, ix, iy)
  {
    hide PixelOf;
    if g.mx == 8 {
      assert g.PixelIndex(ix, iy) / 8 == iy && g.PixelIndex(ix, iy) % 8 == ix;
    } else {
      assert g.PixelIndex(ix, iy) / 16 == iy && g.PixelIndex(ix, iy) % 16 == ix;
    }
  }

  lemma PixelShape(before: seq<byte>, g: Geometry, build: Build, ix: nat, iy: nat)
    requires g.Ok() && |before| == MemoryBytes(g, build) && ix < g.mx && iy < g.my
    ensures g.LumaIndex(ix, iy) < 64 * g.Blocks() && g.ChromaIndex(ix, iy) < 64 * g.Blocks() + 64
    ensures PixelOf(before, g, build, ix, iy)
         == Convert(build, Sample(before, g, build, g.LumaIndex(ix, iy)),
                    Sample(before, g, build, g.ChromaIndex(ix, iy)) - 128,
                    Sample(before, g, build, g.ChromaIndex(ix, iy) + 64) - 128)
  {
    hide Sample, Convert;
    NotYetOverwritten(g, build, ix, iy);
  }

  /** One row of pixels: the pointers `py` and `pc` run along the blocks. */
  method BuildRow(mem: array<byte>, g: Geometry, build: Build, iy: nat, pix0: nat, ghost before: seq<byte>) returns (pix: nat)
    requires g.Ok() && mem.Length == |before| == MemoryBytes(g, build) && iy < g.my
    requires Built(mem, before, Pixels(before, g, build), g.PixelIndex(0, iy)) && pix0 == 3 * g.PixelIndex(0, iy)
    modifies mem
    ensures Built(mem, before, Pixels(before, g, build), g.PixelIndex(g.mx, iy)) && pix == 3 * g.PixelIndex(g.mx, iy)
  {
    hide Built, PixelOf, Sample, Convert, Pixels, MemoryBytes, Geometry.PixelIndex;
    var py, pc := 0, 0;
    if g.my == 16 {
      pc := pc + 64 * 4 + (iy / 2) * 8;
      if iy >= 8 {
        py := py + 64;
      }
    } else {
      pc := pc + g.mx * 8 + iy * 8;
    }
    py := py + iy * 8;
    pix := pix0;
    for ix := 0 to g.mx
      invariant Built(mem, before, Pixels(before, g, build), g.PixelIndex(ix, iy))
      invariant PointersAt(g, ix, iy, py, pc) && pix == 3 * g.PixelIndex(ix, iy)
    {
      ghost var n, px := g.PixelIndex(ix, iy), Pixels(before, g, build);
      NotYetOverwritten(g, build, ix, iy);
      PointersMean(g, ix, iy, py, pc);
      PixelAt(before, g, build, ix, iy);
      PixelShape(before, g, build, ix, iy);
      var cb := ReadSample(mem, g, build, pc, before, px, n);
      var cr := ReadSample(mem, g, build, pc + 64, before, px, n);
      if g.mx == 16 {
        if ix == 8 {
          py := py + 64 - 8;
        }
        if ix % 2 == 1 {
          pc := pc + 1;
        }
      } else {
        pc := pc + 1;
      }
      var yy := ReadSample(mem, g, build, py, before, px, n);
      py := py + 1;
      pix := PutPixel(mem, before, px, n, pix, Convert(build, yy, cb - 128, cr - 128));
      NextIndex(g, ix, iy);
    }
  }

  /** Where the pointers are before pixel `ix`: the jump to the next block comes at pixel 8 itself. */
  ghost predicate PointersAt(g: Geometry, ix: nat, iy: nat, py: int, pc: int) {
    && pc == (if g.my == 16 then 256 + (iy / 2) * 8 else g.mx * 8 + iy * 8) + (if g.mx == 16 then ix / 2 else ix)
    && py == (if g.my == 16 && iy >= 8 then 64 else 0) + iy * 8 + ix + (if ix > 8 then 56 else 0)
  }

  lemma PointersMean(g: Geometry, ix: nat, iy: nat, py: int, pc: int)
    requires g.Ok() && ix < g.mx && iy < g.my && PointersAt(g, ix, iy, py, pc)
    ensures pc == g.ChromaIndex(ix, iy)
    ensures py + (if g.mx == 16 && ix == 8 then 56 else 0) == g.LumaIndex(ix, iy)
  {
  }

  lemma NextIndex(g: Geometry, ix: nat, iy: nat)
    ensures g.PixelIndex(ix + 1, iy) == g.PixelIndex(ix, iy) + 1
  {
  }

  lemma RowEnd(g: Geometry, iy: nat)
    requires g.Ok()
    ensures g.PixelIndex(0, 0) == 0 && g.PixelIndex(g.mx, iy) == g.PixelIndex(0, iy + 1) && g.PixelIndex(0, g.my) == g.Pixels()
  {
    PixelIndexIs(g, 0, 0);
    PixelIndexIs(g, g.mx, iy);
    PixelIndexIs(g, 0, iy + 1);
    PixelIndexIs(g, 0, g.my);
    hide Geometry.PixelIndex;
  }

  lemma PixelIndexIs(g: Geometry, ix: nat, iy: nat)
    requires g.Ok()
    ensures g.PixelIndex(ix, iy) == if g.mx == 8 then 8 * iy + ix else 16 * iy + ix
  {
  }

  /** The RGB pixels of the MCU, over the start of its own samples. */
  method BuildRgb(mem: array<byte>, g: Geometry, build: Build)
    requires g.Ok() && mem.Length == MemoryBytes(g, build)
    modifies mem
    ensures Built(mem, old(mem[..]), Pixels(old(mem[..]), g, build), g.Pixels())
  {
    hide PixelOf, Sample, Convert, Pixels, Geometry.PixelIndex;
    ghost var before := mem[..];
    RowEnd(g, 0);
    var pix: nat := 0;
    for iy := 0 to g.my
      invariant Built(mem, before, Pixels(before, g, build), g.PixelIndex(0, iy)) && pix == 3 * g.PixelIndex(0, iy)
    {
      pix := BuildRow(mem, g, build, iy, pix, before);
      RowEnd(g, iy);
    }
  }

  // ---------- descaling ----------

  /** The colours of a square added up. */
  datatype Sum = Sum(r: nat, g: nat, b: nat) {
    function Plus(c: Rgb): Sum {
      Sum(r + c.r, g + c.g, b + c.b)
    }
  }

  lemma InMcu(g: Geometry, ix: nat, iy: nat)
    requires g.Ok() && ix < g.mx && iy < g.my
    ensures g.PixelIndex(ix, iy) < g.Pixels()
  {
    PixelIndexIs(g, ix, iy);
    hide Geometry.PixelIndex;
  }

  /** Added to `acc`: `n` pixels of row `iy` from column `ix` on. */
  function RowSum(px: seq<Rgb>, g: Geometry, acc: Sum, ix: nat, iy: nat, n: nat): Sum
    requires g.Ok() && |px| == g.Pixels() && ix + n <= g.mx && iy < g.my
  {
    if n == 0 then acc else
      InMcu(g, ix + n - 1, iy);
      RowSum(px, g, acc, ix, iy, n - 1).Plus(px[g.PixelIndex(ix + n - 1, iy)])
  }

  /** The first `h` rows of the square of width `w` with its corner at `ix`, `iy`. */
  function SquareSum(px: seq<Rgb>, g: Geometry, ix: nat, iy: nat, w: nat, h: nat): Sum
    requires g.Ok() && |px| == g.Pixels() && ix + w <= g.mx && iy + h <= g.my
  {
    if h == 0 then Sum(0, 0, 0) else RowSum(px, g, SquareSum(px, g, ix, iy, w, h - 1), ix, iy + h - 1, w)
  }

  lemma {:induction false} RowSumBound(px: seq<Rgb>, g: Geometry, acc: Sum, ix: nat, iy: nat, n: nat)
    requires g.Ok() && |px| == g.Pixels() && ix + n <= g.mx && iy < g.my
    ensures var s := RowSum(px, g, acc, ix, iy, n);
            s.r <= acc.r + 255 * n && s.g <= acc.g + 255 * n && s.b <= acc.b + 255 * n
  {
    if n > 0 {
      RowSumBound(px, g, acc, ix, iy, n - 1);
    }
  }

  /** `1 << scale`: the width of the square that becomes one pixel. */
  function Width(scale: nat): nat {
    match scale
    case 0 => 1
    case 1 => 2
    case _ => 4
  }

  /** `1 << 2 * scale`: its area. */
  function Area(scale: nat): (a: nat)
    ensures a > 0
  {
    match scale
    case 0 => 1
    case 1 => 4
    case _ => 16
  }

  /** A coordinate times the width. */
  function Times(scale: nat, x: nat): nat {
    match scale
    case 0 => x
    case 1 => 2 * x
    case _ => 4 * x
  }

  /** The size of a side after descaling. */
  function Scaled(scale: nat, n: nat): nat {
    match scale
    case 0 => n
    case 1 => n / 2
    case 2 => n / 4
    case _ => n / 8
  }

  /** The average of the square that becomes pixel `x`, `y`. */
  function Average(px: seq<Rgb>, g: Geometry, scale: nat, x: nat, y: nat): Rgb
    requires g.Ok() && |px| == g.Pixels() && scale <= 2 && x < Scaled(scale, g.mx) && y < Scaled(scale, g.my)
  {
    SquareFits(g, scale, x, y);
    var s := SquareSum(px, g, Times(scale, x), Times(scale, y), Width(scale), Width(scale));
    AverageBound(px, g, scale, x, y);
    Rgb(s.r / Area(scale), s.g / Area(scale), s.b / Area(scale))
  }

  lemma SquareFits(g: Geometry, scale: nat, x: nat, y: nat)
    requires g.Ok() && scale <= 2 && x < Scaled(scale, g.mx) && y < Scaled(scale, g.my)
    ensures Times(scale, x) + Width(scale) <= g.mx && Times(scale, y) + Width(scale) <= g.my
  {
  }

  lemma AverageBound(px: seq<Rgb>, g: Geometry, scale: nat, x: nat, y: nat)
    requires g.Ok() && |px| == g.Pixels() && scale <= 2
    requires Times(scale, x) + Width(scale) <= g.mx && Times(scale, y) + Width(scale) <= g.my
    ensures var s := SquareSum(px, g, Times(scale, x), Times(scale, y), Width(scale), Width(scale));
            s.r / Area(scale) <= 255 && s.g / Area(scale) <= 255 && s.b / Area(scale) <= 255
  {
    hide SquareSum, Times;
    SquareSumBound(px, g, Times(scale, x), Times(scale, y), Width(scale), Width(scale));
    assert Width(scale) * Width(scale) == Area(scale);
  }

  lemma {:induction false} SquareSumBound(px: seq<Rgb>, g: Geometry, ix: nat, iy: nat, w: nat, h: nat)
    requires g.Ok() && |px| == g.Pixels() && ix + w <= g.mx && iy + h <= g.my && w <= 4
    ensures var s := SquareSum(px, g, ix, iy, w, h);
            s.r <= 255 * (w * h) && s.g <= 255 * (w * h) && s.b <= 255 * (w * h)
  {
    if h > 0 {
      SquareSumBound(px, g, ix, iy, w, h - 1);
      RowSumBound(px, g, SquareSum(px, g, ix, iy, w, h - 1), ix, iy + h - 1, w);
      assert w * h == w * (h - 1) + w;
    }
  }

  /** Position of pixel `x`, `y` in the descaled MCU. */
  function OutIndex(g: Geometry, scale: nat, x: nat, y: nat): nat {
    y * Scaled(scale, g.mx) + x
  }

  /** How many pixels the descaled MCU has. */
  function OutPixels(g: Geometry, scale: nat): nat {
    Scaled(scale, g.mx) * Scaled(scale, g.my)
  }

  lemma OutIndexIs(g: Geometry, scale: nat, x: nat, y: nat)
    requires g.Ok() && scale <= 2
    ensures OutIndex(g, scale, x, y)
         == match scale
            case 0 => (if g.mx == 8 then 8 * y + x else 16 * y + x)
            case 1 => (if g.mx == 8 then 4 * y + x else 8 * y + x)
            case _ => if g.mx == 8 then 2 * y + x else 4 * y + x
  {
  }

  /** The descaled MCU, row by row. */
  function Descaled(px: seq<Rgb>, g: Geometry, scale: nat): (out: seq<Rgb>)
    requires g.Ok() && |px| == g.Pixels() && scale <= 2
    ensures |out| == OutPixels(g, scale)
  {
    var sw := Scaled(scale, g.mx);
    seq(OutPixels(g, scale), k requires 0 <= k < OutPixels(g, scale) => (OutRange(g, scale, k); Average(px, g, scale, k % sw, k / sw)))
  }

  lemma OutRange(g: Geometry, scale: nat, k: nat)
    requires g.Ok() && scale <= 2 && k < OutPixels(g, scale)
    ensures k % Scaled(scale, g.mx) < Scaled(scale, g.mx) && k / Scaled(scale, g.mx) < Scaled(scale, g.my)
  {
  }

  lemma DescaledAt(px: seq<Rgb>, g: Geometry, scale: nat, x: nat, y: nat)
    requires g.Ok() && |px| == g.Pixels() && scale <= 2 && x < Scaled(scale, g.mx) && y < Scaled(scale, g.my)
    ensures OutIndex(g, scale, x, y) < OutPixels(g, scale)
    ensures Descaled(px, g, scale)[OutIndex(g, scale, x, y)] == Average(px, g, scale, x, y)
  {
    hide Average;
    var sw := Scaled(scale, g.mx);
    OutIndexIs(g, scale, x, y);
    DivModUnique(OutIndex(g, scale, x, y), sw, y, x);
    MulMonotone(y + 1, Scaled(scale, g.my), sw);
    MulDistribute(y, 1, sw);
  }

  /** The first `n` pixels are those of `out`; from there on they are still those of `px`. */
  ghost predicate Replaced(mem: array<byte>, px: seq<Rgb>, out: seq<Rgb>, n: nat)
    reads mem
  {
    && n <= |out| <= |px| && 3 * |px| <= mem.Length
    && (forall p :: 0 <= p < n ==> Stored(mem, p) == out[p])
    && (forall p :: n <= p < |px| ==> Stored(mem, p) == px[p])
  }

  /** A square lies at or beyond the pixel it becomes. */
  lemma SquareBeyond(g: Geometry, scale: nat, x: nat, y: nat, i: nat, j: nat)
    requires g.Ok() && scale <= 2 && x < Scaled(scale, g.mx) && y < Scaled(scale, g.my) && i < Width(scale) && j < Width(scale)
    ensures Times(scale, x) + i < g.mx && Times(scale, y) + j < g.my
    ensures OutIndex(g, scale, x, y) <= g.PixelIndex(Times(scale, x) + i, Times(scale, y) + j) < g.Pixels()
  {
    OutIndexIs(g, scale, x, y);
    PixelIndexIs(g, Times(scale, x) + i, Times(scale, y) + j);
    hide OutIndex, Geometry.PixelIndex;
  }

  /** The sums over a square. */
  method AddSquare(mem: array<byte>, g: Geometry, scale: nat, x: nat, y: nat, ghost px: seq<Rgb>, ghost out: seq<Rgb>) returns (s: Sum)
    requires g.Ok() && scale <= 2 && |px| == g.Pixels() && x < Scaled(scale, g.mx) && y < Scaled(scale, g.my)
    requires Replaced(mem, px, out, OutIndex(g, scale, x, y))
    ensures Times(scale, x) + Width(scale) <= g.mx && Times(scale, y) + Width(scale) <= g.my
    ensures s == SquareSum(px, g, Times(scale, x), Times(scale, y), Width(scale), Width(scale))
  {
    hide RowSum, Geometry.PixelIndex, OutIndex, Times, Width, Geometry.Ok;
    SquareFits(g, scale, x, y);
    var w, ix, iy := Width(scale), Times(scale, x), Times(scale, y);
    s := Sum(0, 0, 0);
    for j := 0 to w
      invariant s == SquareSum(px, g, ix, iy, w, j)
    {
      s := AddRow(mem, g, scale, x, y, j, s, px, out);
    }
  }

  method AddRow(mem: array<byte>, g: Geometry, scale: nat, x: nat, y: nat, j: nat, s0: Sum, ghost px: seq<Rgb>, ghost out: seq<Rgb>)
    returns (s: Sum)
    requires g.Ok() && scale <= 2 && |px| == g.Pixels() && x < Scaled(scale, g.mx) && y < Scaled(scale, g.my) && j < Width(scale)
    requires Replaced(mem, px, out, OutIndex(g, scale, x, y))
    ensures Times(scale, x) + Width(scale) <= g.mx && Times(scale, y) + j < g.my
    ensures s == RowSum(px, g, s0, Times(scale, x), Times(scale, y) + j, Width(scale))
  {
    hide Geometry.PixelIndex, OutIndex, Times, Width, Geometry.Ok;
    SquareFits(g, scale, x, y);
    var w, ix, iy := Width(scale), Times(scale, x), Times(scale, y) + j;
    s := s0;
    var pix := g.PixelIndex(ix, iy) * 3;
    for i := 0 to w
      invariant s == RowSum(px, g, s0, ix, iy, i) && pix == g.PixelIndex(ix + i, iy) * 3
    {
      SquareBeyond(g, scale, x, y, i, j);
      assert Stored(mem, g.PixelIndex(ix + i, iy)) == px[g.PixelIndex(ix + i, iy)];
      s := s.Plus(Rgb(mem[pix], mem[pix + 1], mem[pix + 2]));
      NextIndex(g, ix + i, iy);
      pix := pix + 3;
    }
  }

  method Overwrite(mem: array<byte>, ghost px: seq<Rgb>, ghost out: seq<Rgb>, ghost n: nat, op0: nat, c: Rgb) returns (op: nat)
    requires Replaced(mem, px, out, n) && n < |out| && c == out[n] && op0 == 3 * n
    modifies mem
    ensures Replaced(mem, px, out, n + 1) && op == op0 + 3
  {
    op := op0;
    mem[op] := c.r;
    mem[op + 1] := c.g;
    mem[op + 2] := c.b;
    op := op + 3;
    assert forall p :: 0 <= p < n || n < p < |px| ==> Stored(mem, p) == old(Stored(mem, p));
  }

  /** One averaged pixel. */
  method DescalePixel(mem: array<byte>, g: Geometry, scale: nat, x: nat, y: nat, op0: nat, ghost px: seq<Rgb>, ghost out: seq<Rgb>) returns (op: nat)
    requires g.Ok() && scale <= 2 && |px| == g.Pixels() && x < Scaled(scale, g.mx) && y < Scaled(scale, g.my)
    requires out == Descaled(px, g, scale) && Replaced(mem, px, out, OutIndex(g, scale, x, y)) && op0 == 3 * OutIndex(g, scale, x, y)
    modifies mem
    ensures Replaced(mem, px, out, OutIndex(g, scale, x, y) + 1) && op == op0 + 3
  {
    hide SquareSum, OutIndex, Times, Width, Descaled, OutPixels, Replaced, Geometry.Ok, Area, Scaled;
    var s := AddSquare(mem, g, scale, x, y, px, out);
    DescaledAt(px, g, scale, x, y);
    AverageBound(px, g, scale, x, y);
    op := Overwrite(mem, px, out, OutIndex(g, scale, x, y), op0, Rgb(s.r / Area(scale), s.g / Area(scale), s.b / Area(scale)));
  }

  method DescaleRow(mem: array<byte>, g: Geometry, scale: nat, y: nat, op0: nat, ghost px: seq<Rgb>, ghost out: seq<Rgb>) returns (op: nat)
    requires g.Ok() && scale <= 2 && |px| == g.Pixels() && y < Scaled(scale, g.my)
    requires out == Descaled(px, g, scale) && Replaced(mem, px, out, OutIndex(g, scale, 0, y)) && op0 == 3 * OutIndex(g, scale, 0, y)
    modifies mem
    ensures Replaced(mem, px, out, OutIndex(g, scale, 0, y + 1)) && op == 3 * OutIndex(g, scale, 0, y + 1)
  {
    hide OutIndex, Descaled, OutPixels, Replaced, Geometry.Ok, Scaled;
    op := op0;
    for x := 0 to Scaled(scale, g.mx)
      invariant Replaced(mem, px, out, OutIndex(g, scale, x, y)) && op == 3 * OutIndex(g, scale, x, y)
    {
      op := DescalePixel(mem, g, scale, x, y, op, px, out);
      NextOut(g, scale, x, y);
    }
    OutShape(g, scale, y);
  }

  /** Averaging in place. */
  method Descale(mem: array<byte>, g: Geometry, scale: nat, ghost px: seq<Rgb>)
    requires g.Ok() && 1 <= scale <= 2 && |px| == g.Pixels() && 3 * g.Pixels() <= mem.Length
    requires forall p :: 0 <= p < |px| ==> Stored(mem, p) == px[p]
    modifies mem
    ensures 3 * OutPixels(g, scale) <= mem.Length
    ensures forall k :: 0 <= k < OutPixels(g, scale) ==> Stored(mem, k) == Descaled(px, g, scale)[k]
  {
    hide OutIndex, Descaled, OutPixels, Geometry.Ok, Scaled, Geometry.Pixels;
    ghost var out := Descaled(px, g, scale);
    OutShape(g, scale, 0);
    var op: nat := 0;
    for y := 0 to Scaled(scale, g.my)
      invariant Replaced(mem, px, out, OutIndex(g, scale, 0, y)) && op == 3 * OutIndex(g, scale, 0, y)
    {
      op := DescaleRow(mem, g, scale, y, op, px, out);
    }
  }

  lemma NextOut(g: Geometry, scale: nat, x: nat, y: nat)
    ensures OutIndex(g, scale, x + 1, y) == OutIndex(g, scale, x, y) + 1
  {
  }

  lemma OutShape(g: Geometry, scale: nat, y: nat)
    requires g.Ok() && scale <= 2
    ensures OutIndex(g, scale, 0, 0) == 0 && OutIndex(g, scale, Scaled(scale, g.mx), y) == OutIndex(g, scale, 0, y + 1)
    ensures OutIndex(g, scale, 0, Scaled(scale, g.my)) == OutPixels(g, scale) <= g.Pixels()
  {
    OutIndexIs(g, scale, Scaled(scale, g.mx), y);
    OutIndexIs(g, scale, 0, y + 1);
    OutIndexIs(g, scale, 0, 0);
    hide OutIndex;
    OutCount(g, scale);
  }

  lemma OutCount(g: Geometry, scale: nat)
    requires g.Ok() && scale <= 2
    ensures OutIndex(g, scale, 0, Scaled(scale, g.my)) == OutPixels(g, scale) <= g.Pixels()
  {
  }

  // ---------- cropping ----------

  /** `y` rows of `n` pixels. */
  function Rows(y: nat, n: nat): nat {
    y * n
  }

  lemma RowsNext(y: nat, n: nat)
    ensures Rows(0, n) == 0 && Rows(y + 1, n) == Rows(y, n) + n
  {
    MulDistribute(y, 1, n);
  }

  lemma RowsMonotone(y: nat, z: nat, m: nat, n: nat)
    requires y <= z && m <= n
    ensures Rows(y, m) <= Rows(z, n)
  {
    MulMonotone(y, z, m);
    MulMonotone(m, n, z);
  }

  /** The left `rx` pixels of the first `ry` rows of a table whose rows have `mw` pixels. */
  function Cropped(src: seq<Rgb>, mw: nat, rx: nat, ry: nat): (out: seq<Rgb>)
    requires 0 < rx <= mw && Rows(ry, mw) <= |src|
    ensures |out| == Rows(ry, rx)
  {
    seq(Rows(ry, rx), k requires 0 <= k < Rows(ry, rx) => (CropRange(src, mw, rx, ry, k); src[Rows(k / rx, mw) + k % rx]))
  }

  lemma CropRange(src: seq<Rgb>, mw: nat, rx: nat, ry: nat, k: nat)
    requires 0 < rx <= mw && Rows(ry, mw) <= |src| && k < Rows(ry, rx)
    ensures Rows(k / rx, mw) + k % rx < |src|
  {
    var q, r := DivMod(k, rx);
    hide *;
    if ry <= q {
      RowsMonotone(ry, q, rx, rx);
      RowsAre(q, rx);
    } else {
      RowsMonotone(q + 1, ry, mw, mw);
      RowsNext(q, mw);
    }
  }

  lemma RowsAre(y: nat, n: nat)
    ensures Rows(y, n) == y * n
  {
  }

  lemma CroppedAt(src: seq<Rgb>, mw: nat, rx: nat, ry: nat, x: nat, y: nat)
    requires 0 < rx <= mw && Rows(ry, mw) <= |src| && x < rx && y < ry
    ensures Rows(y, rx) + x < Rows(ry, rx) <= |src| && Rows(y, mw) + x < |src| && Rows(y, rx) <= Rows(y, mw)
    ensures Cropped(src, mw, rx, ry)[Rows(y, rx) + x] == src[Rows(y, mw) + x]
  {
    hide *;
    RowsNext(y, rx);
    RowsNext(y, mw);
    RowsMonotone(y + 1, ry, rx, rx);
    RowsMonotone(y + 1, ry, mw, mw);
    RowsMonotone(y, y, rx, mw);
    RowsMonotone(ry, ry, rx, mw);
    RowsAre(y, rx);
    DivModUnique(Rows(y, rx) + x, rx, y, x);
    CroppedEntry(src, mw, rx, ry, Rows(y, rx) + x, x, y);
  }

  lemma CroppedEntry(src: seq<Rgb>, mw: nat, rx: nat, ry: nat, k: nat, x: nat, y: nat)
    requires 0 < rx <= mw && Rows(ry, mw) <= |src| && k < Rows(ry, rx) && k / rx == y && k % rx == x
    ensures Rows(y, mw) + x < |src| && Cropped(src, mw, rx, ry)[k] == src[Rows(y, mw) + x]
  {
    hide Rows;
    CropRange(src, mw, rx, ry, k);
  }

  /** One pixel moved down. */
  method MovePixel(mem: array<byte>, ghost px: seq<Rgb>, ghost out: seq<Rgb>, ghost n: nat, ghost m: nat, d0: nat, s0: nat) returns (d: nat, s: nat)
    requires Replaced(mem, px, out, n) && n <= m < |px| && n < |out| && out[n] == px[m] && d0 == 3 * n && s0 == 3 * m
    modifies mem
    ensures Replaced(mem, px, out, n + 1) && d == d0 + 3 && s == s0 + 3
  {
    d, s := d0, s0;
    assert Stored(mem, m) == px[m];
    mem[d] := mem[s];
    mem[d + 1] := mem[s + 1];
    mem[d + 2] := mem[s + 2];
    d, s := d + 3, s + 3;
    assert forall p :: 0 <= p < n || n < p < |px| ==> Stored(mem, p) == old(Stored(mem, p));
  }

  /** `Squeeze up pixel table`, in place. */
  method Squeeze(mem: array<byte>, mw: nat, rx: nat, ry: nat, ghost src: seq<Rgb>)
    requires 0 < rx <= mw && Rows(ry, mw) <= |src| && 3 * |src| <= mem.Length
    requires forall p :: 0 <= p < |src| ==> Stored(mem, p) == src[p]
    modifies mem
    ensures 3 * Rows(ry, rx) <= mem.Length
    ensures forall k :: 0 <= k < Rows(ry, rx) ==> Stored(mem, k) == Cropped(src, mw, rx, ry)[k]
  {
    hide Rows, Cropped;
    ghost var out := Cropped(src, mw, rx, ry);
    RowsNext(0, rx);
    RowsNext(0, mw);
    RowsMonotone(ry, ry, rx, mw);
    var s: nat, d: nat := 0, 0;
    for y := 0 to ry
      invariant Replaced(mem, src, out, Rows(y, rx)) && d == 3 * Rows(y, rx) && s == 3 * Rows(y, mw)
    {
      d, s := SqueezeRow(mem, mw, rx, ry, y, d, s, src, out);
    }
  }

  method SqueezeRow(mem: array<byte>, mw: nat, rx: nat, ry: nat, y: nat, d0: nat, s0: nat, ghost src: seq<Rgb>, ghost out: seq<Rgb>)
    returns (d: nat, s: nat)
    requires 0 < rx <= mw && Rows(ry, mw) <= |src| && 3 * |src| <= mem.Length && y < ry && out == Cropped(src, mw, rx, ry)
    requires Replaced(mem, src, out, Rows(y, rx)) && d0 == 3 * Rows(y, rx) && s0 == 3 * Rows(y, mw)
    modifies mem
    ensures Replaced(mem, src, out, Rows(y + 1, rx)) && d == 3 * Rows(y + 1, rx) && s == 3 * Rows(y + 1, mw)
  {
    hide Rows, Cropped, Replaced;
    d, s := d0, s0;
    for x := 0 to rx
      invariant Replaced(mem, src, out, Rows(y, rx) + x) && d == 3 * (Rows(y, rx) + x) && s == 3 * (Rows(y, mw) + x)
    {
      CroppedAt(src, mw, rx, ry, x, y);
      d, s := MovePixel(mem, src, out, Rows(y, rx) + x, Rows(y, mw) + x, d, s);
    }
    RowsNext(y, rx);
    RowsNext(y, mw);
    s := s + (mw - rx) * 3;
  }

  /** Cropping to the full width only drops rows. */
  lemma CroppedWide(src: seq<Rgb>, mw: nat, ry: nat)
    requires 0 < mw && Rows(ry, mw) <= |src|
    ensures Cropped(src, mw, mw, ry) == src[..Rows(ry, mw)]
  {
    forall k | 0 <= k < Rows(ry, mw) ensures Cropped(src, mw, mw, ry)[k] == src[k] {
      var q, r := DivMod(k, mw);
      RowsAre(q, mw);
    }
  }

  // ---------- RGB565 ----------

  /** Five bits of red, six of green and five of blue. */
  function Colour565(c: Rgb): nat {
    var r: nat, g: nat, b: nat := c.r, c.g, c.b;
    r / 8 * 2048 + g / 4 * 32 + b / 8
  }

  /** The format change in place: two bytes (little-endian) for three. */
  method To565(mem: array<byte>, n0: nat, ghost px: seq<Rgb>)
    requires 0 < n0 <= |px| && 3 * |px| <= mem.Length && forall p :: 0 <= p < n0 ==> Stored(mem, p) == px[p]
    modifies mem
    ensures forall k :: 0 <= k < n0 ==> mem[2 * k] == Colour565(px[k]) % 256 && mem[2 * k + 1] == Colour565(px[k]) / 256
  {
    var s, d, n: nat := 0, 0, n0;
    while n > 0
      invariant 0 <= n <= n0 && s == 3 * (n0 - n) && d == 2 * (n0 - n)
      invariant forall k :: 0 <= k < n0 - n ==> mem[2 * k] == Colour565(px[k]) % 256 && mem[2 * k + 1] == Colour565(px[k]) / 256
      invariant forall p :: n0 - n <= p < n0 ==> Stored(mem, p) == px[p]
    {
      ghost var k := n0 - n;
      assert Stored(mem, k) == px[k];
      var w := Colour565(Rgb(mem[s], mem[s + 1], mem[s + 2]));
      s := s + 3;
      mem[d], mem[d + 1] := w % 256, w / 256;
      d := d + 2;
      assert forall p :: k < p < n0 ==> 3 * p > 2 * k + 1;
      n := n - 1;
    }
  }

  // ---------- 1/8 scaling ----------

  /** At scale 3 each block is one pixel, from its first sample and the first chroma samples. */
  function Corners(mem: seq<byte>, g: Geometry, build: Build): (px: seq<Rgb>)
    requires g.Ok() && |mem| == MemoryBytes(g, build)
    ensures |px| == g.Blocks()
  {
    seq(g.Blocks(), b requires 0 <= b < g.Blocks() =>
      Convert(build, Sample(mem, g, build, 64 * b), Sample(mem, g, build, 64 * g.Blocks()) - 128, Sample(mem, g, build, 64 * g.Blocks() + 64) - 128))
  }

  /** All samples of each block are the same, as `mcu_load` leaves them at scale 3. */
  ghost predicate FlatBlocks(mem: seq<byte>, g: Geometry, build: Build)
    requires g.Ok() && |mem| == MemoryBytes(g, build)
  {
    forall k :: 0 <= k < 64 * (g.Blocks() + 2) ==> Sample(mem, g, build, k) == Sample(mem, g, build, k / 64 * 64)
  }

  /** Then a block's pixel is the colour of every pixel of the block, and so of their average. */
  lemma CornersAreAll(mem: seq<byte>, g: Geometry, build: Build, ix: nat, iy: nat)
    requires g.Ok() && |mem| == MemoryBytes(g, build) && FlatBlocks(mem, g, build) && ix < g.mx && iy < g.my
    ensures BlockAt(g, ix / 8, iy / 8) < g.Blocks()
    ensures Corners(mem, g, build)[BlockAt(g, ix / 8, iy / 8)] == PixelOf(mem, g, build, ix, iy)
  {
    hide *;
    BlockOf(g, ix, iy);
    CornerAt(mem, g, build, BlockAt(g, ix / 8, iy / 8));
    PixelShape(mem, g, build, ix, iy);
    FlatAt(mem, g, build, g.LumaIndex(ix, iy));
    FlatAt(mem, g, build, g.ChromaIndex(ix, iy));
    FlatAt(mem, g, build, g.ChromaIndex(ix, iy) + 64);
  }

  lemma BlockOf(g: Geometry, ix: nat, iy: nat)
    requires g.Ok() && ix < g.mx && iy < g.my
    ensures BlockAt(g, ix / 8, iy / 8) < g.Blocks() && g.LumaIndex(ix, iy) / 64 == BlockAt(g, ix / 8, iy / 8)
    ensures g.ChromaIndex(ix, iy) / 64 == g.Blocks() && (g.ChromaIndex(ix, iy) + 64) / 64 == g.Blocks() + 1
    ensures g.LumaIndex(ix, iy) < 64 * g.Blocks() && g.ChromaIndex(ix, iy) < 64 * g.Blocks() + 64
  {
  }

  lemma FlatAt(mem: seq<byte>, g: Geometry, build: Build, k: nat)
    requires g.Ok() && |mem| == MemoryBytes(g, build) && FlatBlocks(mem, g, build) && k < 64 * (g.Blocks() + 2)
    ensures Sample(mem, g, build, k) == Sample(mem, g, build, k / 64 * 64)
  {
  }

  /** The block of a column and row of blocks. */
  function BlockAt(g: Geometry, column: nat, row: nat): nat {
    if g.mx == 8 then row + column else 2 * row + column
  }

  method BuildCorners(mem: array<byte>, g: Geometry, build: Build)
    requires g.Ok() && mem.Length == MemoryBytes(g, build)
    modifies mem
    ensures Built(mem, old(mem[..]), Corners(old(mem[..]), g, build), g.Blocks())
  {
    hide Sample, Convert, Built, Corners;
    ghost var before, px := mem[..], Corners(mem[..], g, build);
    CornersFit(g, build);
    BuiltNothing(mem, px);
    var pc := g.mx * g.my;
    var cb := ReadSample(mem, g, build, pc, before, px, 0);
    var cr := ReadSample(mem, g, build, pc + 64, before, px, 0);
    var pix: nat := 0;
    ghost var n := 0;
    var iy := 0;
    while iy < g.my
      invariant iy <= g.my && iy % 8 == 0 && n == BlockAt(g, 0, iy / 8) && pix == 3 * n && Built(mem, before, px, n)
      decreases g.my - iy
    {
      var py := 0;
      if iy == 8 {
        py := py + 64 * 2;
      }
      var ix := 0;
      while ix < g.mx
        invariant ix <= g.mx && ix % 8 == 0 && iy < g.my && n == BlockAt(g, ix / 8, iy / 8) && pix == 3 * n
        invariant py == 64 * n && Built(mem, before, px, n)
        decreases g.mx - ix
      {
        var yy := ReadSample(mem, g, build, py, before, px, n);
        py := py + 64;
        CornerAt(before, g, build, n);
        pix := PutPixel(mem, before, px, n, pix, Convert(build, yy, cb - 128, cr - 128));
        n := n + 1;
        ix := ix + 8;
      }
      iy := iy + 8;
    }
  }

  lemma CornersFit(g: Geometry, build: Build)
    requires g.Ok()
    ensures g.mx * g.my == 64 * g.Blocks() && 3 * g.Blocks() <= MemoryBytes(g, build) && g.Blocks() >= 1
  {
  }

  lemma BuiltNothing(mem: array<byte>, px: seq<Rgb>)
    requires 3 * |px| <= mem.Length
    ensures Built(mem, mem[..], px, 0)
  {
  }

  lemma CornerAt(mem: seq<byte>, g: Geometry, build: Build, b: nat)
    requires g.Ok() && |mem| == MemoryBytes(g, build) && b < g.Blocks()
    ensures Corners(mem, g, build)[b]
         == Convert(build, Sample(mem, g, build, 64 * b), Sample(mem, g, build, 64 * g.Blocks()) - 128, Sample(mem, g, build, 64 * g.Blocks() + 64) - 128)
  {
    hide Sample, Convert;
  }

  // ---------- the whole of mcu_output ----------

  /** The MCU's pixels at a scale, before cropping. */
  function Averaged(mem: seq<byte>, g: Geometry, build: Build, scale: nat): (px: seq<Rgb>)
    requires g.Ok() && |mem| == MemoryBytes(g, build) && scale <= 3
    ensures |px| == OutPixels(g, scale)
  {
    if scale == 3 then Corners(mem, g, build) else Descaled(Pixels(mem, g, build), g, scale)
  }

  /** At scale 0 averaging changes nothing. */
  lemma FullScale(px: seq<Rgb>, g: Geometry)
    requires g.Ok() && |px| == g.Pixels()
    ensures Descaled(px, g, 0) == px
  {
    hide Geometry.Pixels;
    OutCount(g, 0);
    forall k | 0 <= k < OutPixels(g, 0) ensures Descaled(px, g, 0)[k] == px[k] {
      FullScaleAt(px, g, k);
    }
    FullCount(g);
  }

  lemma FullCount(g: Geometry)
    requires g.Ok()
    ensures OutPixels(g, 0) == g.Pixels()
  {
  }

  lemma FullScaleAt(px: seq<Rgb>, g: Geometry, k: nat)
    requires g.Ok() && |px| == g.Pixels() && k < OutPixels(g, 0)
    ensures k < |px| && Descaled(px, g, 0)[k] == px[k]
  {
    FullCount(g);
    OutRange(g, 0, k);
    var x, y := k % g.mx, k / g.mx;
    PixelIndexIs(g, x, y);
    OneByOne(px, g, x, y);
  }

  lemma OneByOne(px: seq<Rgb>, g: Geometry, x: nat, y: nat)
    requires g.Ok() && |px| == g.Pixels() && x < g.mx && y < g.my
    ensures g.PixelIndex(x, y) < |px| && Average(px, g, 0, x, y) == px[g.PixelIndex(x, y)]
  {
    InMcu(g, x, y);
    hide Geometry.PixelIndex;
    assert SquareSum(px, g, x, y, 1, 0) == Sum(0, 0, 0);
    assert RowSum(px, g, Sum(0, 0, 0), x, y, 1) == RowSum(px, g, Sum(0, 0, 0), x, y, 0).Plus(px[g.PixelIndex(x, y)]);
  }

  /** The size of a side of the output rectangle: clipped at the edge of the image, then scaled. */
  function Extent(x: nat, m: nat, size: nat, scale: nat): nat
    requires x < size
  {
    Scaled(scale, if x + m <= size then m else size - x)
  }

  datatype Rect = Rect(left: nat, right: nat, top: nat, bottom: nat)

  /** The buffer handed to the output function holds the pixels `out` in the output format. */
  ghost predicate Delivered(mem: array<byte>, out: seq<Rgb>, rgb565: bool)
    reads mem
  {
    && 3 * |out| <= mem.Length
    && if rgb565 then
         forall k :: 0 <= k < |out| ==> mem[2 * k] == Colour565(out[k]) % 256 && mem[2 * k + 1] == Colour565(out[k]) / 256
       else
         forall k :: 0 <= k < |out| ==> Stored(mem, k) == out[k]
  }

  /** Pixels at a scale, in place of the samples. */
  method BuildPixels(mem: array<byte>, g: Geometry, build: Build, scale: nat)
    requires g.Ok() && mem.Length == MemoryBytes(g, build) && scale <= 3
    modifies mem
    ensures 3 * OutPixels(g, scale) <= mem.Length
    ensures forall k :: 0 <= k < OutPixels(g, scale) ==> Stored(mem, k) == Averaged(old(mem[..]), g, build, scale)[k]
  {
    hide Pixels, Corners, Descaled, Geometry.Pixels;
    ghost var px := Pixels(mem[..], g, build);
    PoolFits(g, build, scale);
    if scale != 3 {
      BuildRgb(mem, g, build);
      if scale != 0 {
        Descale(mem, g, scale, px);
      } else {
        FullScale(px, g);
      }
    } else {
      BuildCorners(mem, g, build);
    }
  }

  lemma PoolFits(g: Geometry, build: Build, scale: nat)
    requires g.Ok() && scale <= 3
    ensures 3 * OutPixels(g, scale) <= 3 * g.Pixels() <= MemoryBytes(g, build)
    ensures scale == 3 ==> OutPixels(g, scale) == g.Blocks()
  {
  }

  lemma ExtentFits(g: Geometry, build: Build, scale: nat, x: nat, y: nat, width: nat, height: nat)
    requires g.Ok() && scale <= 3 && x < width && y < height
    ensures var rx, ry, mw := Extent(x, g.mx, width, scale), Extent(y, g.my, height, scale), Scaled(scale, g.mx);
            rx <= mw && Rows(ry, mw) <= OutPixels(g, scale) && Rows(ry, rx) <= OutPixels(g, scale) && (rx > 0 && ry > 0 ==> Rows(ry, rx) > 0)
  {
    var rx, ry, mw := Extent(x, g.mx, width, scale), Extent(y, g.my, height, scale), Scaled(scale, g.mx);
    ExtentScaled(x, g.mx, width, scale);
    ExtentScaled(y, g.my, height, scale);
    RowsAre(Scaled(scale, g.my), mw);
    hide Rows, Extent, Scaled;
    RowsMonotone(ry, Scaled(scale, g.my), mw, mw);
    RowsMonotone(ry, ry, rx, mw);
    if rx > 0 && ry > 0 {
      RowsMonotone(1, ry, rx, rx);
      RowsNext(0, rx);
    }
  }

  lemma ExtentScaled(x: nat, m: nat, size: nat, scale: nat)
    requires x < size
    ensures Extent(x, m, size, scale) <= Scaled(scale, m)
  {
  }

  /**
   `mcu_output`: the output function is called unless the rectangle vanishes at this scale, and what it gets is
   the pure conversion of the samples: each pixel the average of its square of converted pixels, the rectangle
   cropped at the edges of the image.
   */
  method OutputMcu(mem: array<byte>, g: Geometry, build: Build, scale: nat, rgb565: bool, x: nat, y: nat, width: nat, height: nat)
    returns (called: bool, rect: Rect)
    requires g.Ok() && mem.Length == MemoryBytes(g, build) && scale <= 3 && x < width && y < height
    modifies mem
    ensures called == (Extent(x, g.mx, width, scale) > 0 && Extent(y, g.my, height, scale) > 0)
    ensures called ==>
              var rx, ry := Extent(x, g.mx, width, scale), Extent(y, g.my, height, scale);
              && rect == Rect(Scaled(scale, x), Scaled(scale, x) + rx - 1, Scaled(scale, y), Scaled(scale, y) + ry - 1)
              && rx <= Scaled(scale, g.mx) && Rows(ry, Scaled(scale, g.mx)) <= OutPixels(g, scale)
              && Delivered(mem, Cropped(Averaged(old(mem[..]), g, build, scale), Scaled(scale, g.mx), rx, ry), rgb565)
  {
    hide Averaged, Cropped, Rows, Extent, Scaled, OutPixels, Geometry.Ok;
    ExtentFits(g, build, scale, x, y, width, height);
    ExtentIs(x, g.mx, width, scale);
    ExtentIs(y, g.my, height, scale);
    var rx := Scaled(scale, if x + g.mx <= width then g.mx else width - x);
    var ry := Scaled(scale, if y + g.my <= height then g.my else height - y);
    rect := Rect(0, 0, 0, 0);
    if rx == 0 || ry == 0 {
      return false, rect;
    }
    var left, top := Scaled(scale, x), Scaled(scale, y);
    rect := Rect(left, left + rx - 1, top, top + ry - 1);
    called := true;
    ghost var px := Averaged(mem[..], g, build, scale);
    BuildPixels(mem, g, build, scale);
    var mw := Scaled(scale, g.mx);
    ghost var out := Cropped(px, mw, rx, ry);
    if rx < mw {
      Squeeze(mem, mw, rx, ry, px);
    } else {
      CroppedWide(px, mw, ry);
    }
    if rgb565 {
      RowsAre(ry, rx);
      To565(mem, rx * ry, out);
    }
  }

  lemma ExtentIs(x: nat, m: nat, size: nat, scale: nat)
    requires x < size
    ensures Extent(x, m, size, scale) == Scaled(scale, if x + m <= size then m else size - x)
  {
  }

  // ---------- the two forms of clipping ----------

  const LOWEST: int := -103
  const HIGHEST: int := 266

  /** Samples for which no conversion leaves the range of the clipping table. */
  ghost predicate InTableRange(mem: seq<byte>, g: Geometry, build: Build)
    requires g.Ok() && |mem| == MemoryBytes(g, build)
  {
    forall k :: 0 <= k < 64 * (g.Blocks() + 2) ==> LOWEST <= Sample(mem, g, build, k) <= HIGHEST
  }

  /** Samples of one byte always are. */
  lemma NarrowInRange(mem: seq<byte>, g: Geometry, build: Build)
    requires g.Ok() && |mem| == MemoryBytes(g, build) && !build.wide
    ensures InTableRange(mem, g, build)
  {
  }

  lemma ConversionInRange(yy: int, cb: int, cr: int)
    requires LOWEST <= yy <= HIGHEST && LOWEST - 128 <= cb <= HIGHEST - 128 && LOWEST - 128 <= cr <= HIGHEST - 128
    ensures -512 <= Red(yy, cr) <= 511 && -512 <= Green(yy, cb, cr) <= 511 && -512 <= Blue(yy, cb) <= 511
    ensures Convert(Build(true, true), yy, cb, cr) == Convert(Build(true, false), yy, cb, cr)
  {
    TableClamps(Red(yy, cr));
    TableClamps(Green(yy, cb, cr));
    TableClamps(Blue(yy, cb));
  }

  /** No wider interval of samples will do: one more at either end, and a blue value leaves the range. */
  lemma TableRangeTight()
    ensures Blue(HIGHEST + 1, HIGHEST + 1 - 128) > 511 && Blue(LOWEST - 1, LOWEST - 1 - 128) < -512
  {
  }

  lemma SameSample(mem: seq<byte>, g: Geometry, build: Build, k: nat)
    requires g.Ok() && |mem| == MemoryBytes(g, build) && k < 64 * (g.Blocks() + 2)
    ensures forall table :: Sample(mem, g, build.(table := table), k) == Sample(mem, g, build, k)
  {
  }

  lemma SameConversion(mem: seq<byte>, g: Geometry, build: Build, luma: nat, chroma: nat)
    requires g.Ok() && |mem| == MemoryBytes(g, build) && InTableRange(mem, g, build)
    requires luma < 64 * (g.Blocks() + 2) && chroma + 64 < 64 * (g.Blocks() + 2)
    ensures forall table :: Convert(build.(table := table), Sample(mem, g, build, luma), Sample(mem, g, build, chroma) - 128,
                                    Sample(mem, g, build, chroma + 64) - 128)
                         == Convert(Build(true, false), Sample(mem, g, build, luma), Sample(mem, g, build, chroma) - 128,
                                    Sample(mem, g, build, chroma + 64) - 128)
  {
    hide Sample, Red, Green, Blue;
    ConversionInRange(Sample(mem, g, build, luma), Sample(mem, g, build, chroma) - 128, Sample(mem, g, build, chroma + 64) - 128);
  }

  /**
   In that range the table and clamping give the same pixels, at every scale; so they do for every content of
   the builds with one-byte samples.
   */
  lemma ClipsAgree(mem: seq<byte>, g: Geometry, build: Build, table: bool, scale: nat)
    requires g.Ok() && |mem| == MemoryBytes(g, build) && scale <= 3 && (build.wide ==> InTableRange(mem, g, build))
    ensures Averaged(mem, g, build.(table := table), scale) == Averaged(mem, g, build, scale)
  {
    hide Convert, Sample, InTableRange, Descaled;
    var other := build.(table := table);
    if !build.wide {
      NarrowInRange(mem, g, build);
    }
    if scale == 3 {
      forall n | 0 <= n < g.Blocks() ensures Corners(mem, g, other)[n] == Corners(mem, g, build)[n] {
        CornerAt(mem, g, other, n);
        CornerAt(mem, g, build, n);
        SameSample(mem, g, build, 64 * n);
        SameSample(mem, g, build, 64 * g.Blocks());
        SameSample(mem, g, build, 64 * g.Blocks() + 64);
        SameConversion(mem, g, build, 64 * n, 64 * g.Blocks());
        assert build.(table := build.table) == build;
      }
      assert Corners(mem, g, other) == Corners(mem, g, build);
    } else {
      SamePixels(mem, g, build, table);
    }
  }

  lemma SamePixels(mem: seq<byte>, g: Geometry, build: Build, table: bool)
    requires g.Ok() && |mem| == MemoryBytes(g, build) && InTableRange(mem, g, build)
    ensures Pixels(mem, g, build.(table := table)) == Pixels(mem, g, build)
  {
    hide PixelOf, Sample, InTableRange;
    var other := build.(table := table);
    forall p | 0 <= p < g.Pixels() ensures Pixels(mem, g, other)[p] == Pixels(mem, g, build)[p] {
      InBlock(g, p);
      SamePixel(mem, g, build, table, p % g.mx, p / g.mx);
    }
  }

  lemma SameMemory(g: Geometry, build: Build, table: bool)
    ensures MemoryBytes(g, build.(table := table)) == MemoryBytes(g, build)
  {
  }

  lemma InBlock(g: Geometry, p: nat)
    requires g.Ok() && p < g.Pixels()
    ensures p % g.mx < g.mx && p / g.mx < g.my
  {
  }

  lemma SamePixel(mem: seq<byte>, g: Geometry, build: Build, table: bool, ix: nat, iy: nat)
    requires g.Ok() && |mem| == MemoryBytes(g, build) && InTableRange(mem, g, build) && ix < g.mx && iy < g.my
    ensures PixelOf(mem, g, build.(table := table), ix, iy) == PixelOf(mem, g, build, ix, iy)
  {
    hide *;
    var other := build.(table := table);
    SameMemory(g, build, table);
    NotYetOverwritten(g, build, ix, iy);
    PixelShape(mem, g, other, ix, iy);
    PixelShape(mem, g, build, ix, iy);
    SameSample(mem, g, build, g.LumaIndex(ix, iy));
    SameSample(mem, g, build, g.ChromaIndex(ix, iy));
    SameSample(mem, g, build, g.ChromaIndex(ix, iy) + 64);
    SameConversion(mem, g, build, g.LumaIndex(ix, iy), g.ChromaIndex(ix, iy));
    assert build.(table := build.table) == build;
  }

  // ---------- what the colours are ----------

  function Magnitude(v: int): nat {
    if v < 0 then -v else v
  }

  /** `c` is a value given in thousandths, to within `d` thousandths, or the end of 0..255 it lies beyond. */
  predicate Shade(c: byte, thousandths: int, d: nat) {
    (c > 0 ==> 1000 * c <= thousandths + d) && (c < 255 ==> 1000 * c >= thousandths - d)
  }

  /**
   The colour of a luma value and two chroma differences by the matrix of JFIF (R = Y + 1.402 Cr,
   G = Y - 0.344 Cb - 0.714 Cr, B = Y + 1.772 Cb), to within 1 and a thousandth of the differences.
   */
  predicate IsColour(c: Rgb, yy: int, cb: int, cr: int) {
    && Shade(c.r, 1000 * yy + 1402 * cr, 1000 + Magnitude(cr))
    && Shade(c.g, 1000 * yy - 344 * cb - 714 * cr, 1000 + Magnitude(cb) + Magnitude(cr))
    && Shade(c.b, 1000 * yy + 1772 * cb, 1000 + Magnitude(cb))
  }

  /** The samples are such that the clipping of the build clamps. */
  ghost predicate Clamps(mem: seq<byte>, g: Geometry, build: Build)
    requires g.Ok() && |mem| == MemoryBytes(g, build)
  {
    build.table && build.wide ==> InTableRange(mem, g, build)
  }

  lemma ChannelsAreMatrix(yy: int, cb: int, cr: int)
    ensures Magnitude(1000 * (Red(yy, cr) - yy) - 1402 * cr) <= 1000 + Magnitude(cr)
    ensures Magnitude(1000 * (Green(yy, cb, cr) - yy) + 344 * cb + 714 * cr) <= 1000 + Magnitude(cb) + Magnitude(cr)
    ensures Magnitude(1000 * (Blue(yy, cb) - yy) - 1772 * cb) <= 1000 + Magnitude(cb)
  {
    Truncated(1435 * cr);
    Truncated(352 * cb + 731 * cr);
    Truncated(1814 * cb);
    hide TruncDiv;
  }

  lemma Truncated(a: int)
    ensures Magnitude(1024 * TruncDiv(a, 1024) - a) <= 1023
  {
  }

  /** The conversion is the matrix, and grey stays grey. */
  lemma ConvertIsMatrix(build: Build, yy: int, cb: int, cr: int)
    requires build.table ==> LOWEST <= yy <= HIGHEST && LOWEST - 128 <= cb <= HIGHEST - 128 && LOWEST - 128 <= cr <= HIGHEST - 128
    ensures IsColour(Convert(build, yy, cb, cr), yy, cb, cr)
    ensures cb == 0 && cr == 0 ==> Convert(build, yy, cb, cr) == Rgb(Clamp(yy), Clamp(yy), Clamp(yy))
  {
    hide Red, Green, Blue, Clip8;
    ChannelsAreMatrix(yy, cb, cr);
    GreyChannels(yy);
    if build.table {
      ConversionInRange(yy, cb, cr);
      TableClamps(Red(yy, cr));
      TableClamps(Green(yy, cb, cr));
      TableClamps(Blue(yy, cb));
    }
  }

  lemma GreyChannels(yy: int)
    ensures Red(yy, 0) == Green(yy, 0, 0) == Blue(yy, 0) == yy
  {
  }

  /**
   Where the samples of a pixel are: its luma sample at its place in the block it lies in, its chroma samples
   in the block after the luma ones (Cb) and the next (Cr), one for every `mx / 8` by `my / 8` pixels.
   */
  lemma SamplePlaces(g: Geometry, ix: nat, iy: nat)
    requires g.Ok() && ix < g.mx && iy < g.my
    ensures g.LumaIndex(ix, iy) == 64 * (iy / 8 * (g.mx / 8) + ix / 8) + 8 * (iy % 8) + ix % 8
    ensures g.ChromaIndex(ix, iy) == 64 * (g.mx / 8 * (g.my / 8)) + 8 * (iy / (g.my / 8)) + ix / (g.mx / 8)
  {
  }

  /** The colour of a pixel is that of its samples. */
  lemma PixelColour(mem: seq<byte>, g: Geometry, build: Build, ix: nat, iy: nat)
    requires g.Ok() && |mem| == MemoryBytes(g, build) && ix < g.mx && iy < g.my && Clamps(mem, g, build)
    ensures g.LumaIndex(ix, iy) < 64 * g.Blocks() && g.ChromaIndex(ix, iy) < 64 * g.Blocks() + 64
    ensures IsColour(PixelOf(mem, g, build, ix, iy), Sample(mem, g, build, g.LumaIndex(ix, iy)),
                     Sample(mem, g, build, g.ChromaIndex(ix, iy)) - 128, Sample(mem, g, build, g.ChromaIndex(ix, iy) + 64) - 128)
  {
    hide Sample, Convert, IsColour, PixelOf;
    if !build.wide {
      NarrowInRange(mem, g, build);
    }
    PixelShape(mem, g, build, ix, iy);
    ConvertIsMatrix(build, Sample(mem, g, build, g.LumaIndex(ix, iy)), Sample(mem, g, build, g.ChromaIndex(ix, iy)) - 128,
                    Sample(mem, g, build, g.ChromaIndex(ix, iy) + 64) - 128);
  }

  lemma CornerColour(mem: seq<byte>, g: Geometry, build: Build, b: nat)
    requires g.Ok() && |mem| == MemoryBytes(g, build) && b < g.Blocks() && Clamps(mem, g, build)
    ensures IsColour(Corners(mem, g, build)[b], Sample(mem, g, build, 64 * b),
                     Sample(mem, g, build, 64 * g.Blocks()) - 128, Sample(mem, g, build, 64 * g.Blocks() + 64) - 128)
  {
    hide Sample, Convert, IsColour, Corners;
    if !build.wide {
      NarrowInRange(mem, g, build);
    }
    CornerAt(mem, g, build, b);
    ConvertIsMatrix(build, Sample(mem, g, build, 64 * b), Sample(mem, g, build, 64 * g.Blocks()) - 128,
                    Sample(mem, g, build, 64 * g.Blocks() + 64) - 128);
  }

  // ---------- what an average is ----------

  /** Channel by channel. */
  predicate Between(lo: Rgb, c: Rgb, hi: Rgb) {
    lo.r <= c.r <= hi.r && lo.g <= c.g <= hi.g && lo.b <= c.b <= hi.b
  }

  predicate SumBetween(lo: Rgb, s: Sum, hi: Rgb, n: nat) {
    n * lo.r <= s.r <= n * hi.r && n * lo.g <= s.g <= n * hi.g && n * lo.b <= s.b <= n * hi.b
  }

  lemma SumBetweenMore(lo: Rgb, s: Sum, hi: Rgb, n: nat, c: Rgb)
    requires SumBetween(lo, s, hi, n) && Between(lo, c, hi)
    ensures SumBetween(lo, s.Plus(c), hi, n + 1)
  {
    MulDistribute(n, 1, lo.r);
    MulDistribute(n, 1, hi.r);
    MulDistribute(n, 1, lo.g);
    MulDistribute(n, 1, hi.g);
    MulDistribute(n, 1, lo.b);
    MulDistribute(n, 1, hi.b);
  }

  /** The pixel of column `i` and row `j` is in the square of width `w` and height `h` at `ix`, `iy`. */
  predicate InSquare(ix: nat, iy: nat, w: nat, h: nat, i: nat, j: nat) {
    ix <= i < ix + w && iy <= j < iy + h
  }

  ghost predicate SquareBetween(lo: Rgb, px: seq<Rgb>, hi: Rgb, g: Geometry, ix: nat, iy: nat, w: nat, h: nat)
    requires g.Ok() && |px| == g.Pixels() && ix + w <= g.mx && iy + h <= g.my
  {
    forall i: nat, j: nat :: InSquare(ix, iy, w, h, i, j) ==> g.PixelIndex(i, j) < |px| && Between(lo, px[g.PixelIndex(i, j)], hi)
  }

  lemma {:induction false} RowSumBetween(lo: Rgb, px: seq<Rgb>, hi: Rgb, g: Geometry, acc: Sum, k: nat, ix: nat, iy: nat, n: nat)
    requires g.Ok() && |px| == g.Pixels() && ix + n <= g.mx && iy < g.my
    requires SumBetween(lo, acc, hi, k) && SquareBetween(lo, px, hi, g, ix, iy, n, 1)
    ensures SumBetween(lo, RowSum(px, g, acc, ix, iy, n), hi, k + n)
  {
    hide Geometry.PixelIndex, SumBetween, Between;
    if n > 0 {
      RowSumBetween(lo, px, hi, g, acc, k, ix, iy, n - 1);
      InMcu(g, ix + n - 1, iy);
      assert InSquare(ix, iy, n, 1, ix + n - 1, iy);
      SumBetweenMore(lo, RowSum(px, g, acc, ix, iy, n - 1), hi, k + (n - 1), px[g.PixelIndex(ix + n - 1, iy)]);
    }
  }

  lemma {:induction false} SquareSumBetween(lo: Rgb, px: seq<Rgb>, hi: Rgb, g: Geometry, ix: nat, iy: nat, w: nat, h: nat)
    requires g.Ok() && |px| == g.Pixels() && ix + w <= g.mx && iy + h <= g.my && SquareBetween(lo, px, hi, g, ix, iy, w, h)
    ensures SumBetween(lo, SquareSum(px, g, ix, iy, w, h), hi, Rows(h, w))
  {
    hide Geometry.PixelIndex, Between, RowSum, Rows;
    RowsNext(if h > 0 then h - 1 else 0, w);
    if h > 0 {
      hide SumBetween;
      assert forall i: nat, j: nat :: InSquare(ix, iy, w, h - 1, i, j) ==> InSquare(ix, iy, w, h, i, j);
      SquareSumBetween(lo, px, hi, g, ix, iy, w, h - 1);
      assert forall i: nat, j: nat :: InSquare(ix, iy + h - 1, w, 1, i, j) ==> InSquare(ix, iy, w, h, i, j);
      RowSumBetween(lo, px, hi, g, SquareSum(px, g, ix, iy, w, h - 1), Rows(h - 1, w), ix, iy + h - 1, w);
    }
  }

  /** An average lies between the least and the greatest value of its square; the average of equal pixels is that pixel. */
  lemma AverageBetween(lo: Rgb, px: seq<Rgb>, hi: Rgb, g: Geometry, scale: nat, x: nat, y: nat)
    requires g.Ok() && |px| == g.Pixels() && scale <= 2 && x < Scaled(scale, g.mx) && y < Scaled(scale, g.my)
    requires Times(scale, x) + Width(scale) <= g.mx && Times(scale, y) + Width(scale) <= g.my
    requires SquareBetween(lo, px, hi, g, Times(scale, x), Times(scale, y), Width(scale), Width(scale))
    ensures Between(lo, Average(px, g, scale, x, y), hi)
    ensures lo == hi ==> Average(px, g, scale, x, y) == lo
  {
    hide SquareSum, SquareBetween, Times;
    SquareSumBetween(lo, px, hi, g, Times(scale, x), Times(scale, y), Width(scale), Width(scale));
    assert Rows(Width(scale), Width(scale)) == Area(scale);
  }

  /** From `s` to `s'` the sum changes by the change of one pixel, if that is in it. */
  predicate Changes(s: Sum, s': Sum, before: Rgb, after: Rgb, inside: bool) {
    if inside then s'.r == s.r - before.r + after.r && s'.g == s.g - before.g + after.g && s'.b == s.b - before.b + after.b
    else s' == s
  }

  lemma {:induction false} RowCountsOnce(px: seq<Rgb>, g: Geometry, acc: Sum, acc': Sum, ix: nat, iy: nat, n: nat, i: nat, j: nat, c: Rgb, inside: bool)
    requires g.Ok() && |px| == g.Pixels() && ix + n <= g.mx && iy < g.my && i < g.mx && j < g.my
    requires g.PixelIndex(i, j) < |px| && Changes(acc, acc', px[g.PixelIndex(i, j)], c, inside) && (inside ==> j != iy)
    ensures Changes(RowSum(px, g, acc, ix, iy, n), RowSum(px[g.PixelIndex(i, j) := c], g, acc', ix, iy, n),
                    px[g.PixelIndex(i, j)], c, inside || InSquare(ix, iy, n, 1, i, j))
  {
    hide Geometry.PixelIndex;
    if n > 0 {
      RowCountsOnce(px, g, acc, acc', ix, iy, n - 1, i, j, c, inside);
      InMcu(g, ix + n - 1, iy);
      PixelIndexIs(g, i, j);
      PixelIndexIs(g, ix + n - 1, iy);
    }
  }

  /**
   The sum of a square counts each of its pixels once and no other: replacing a pixel changes it by the
   difference if the pixel is in the square, and not at all otherwise; black pixels add up to nothing.
   */
  lemma {:induction false} SquareCountsOnce(px: seq<Rgb>, g: Geometry, ix: nat, iy: nat, w: nat, h: nat, i: nat, j: nat, c: Rgb)
    requires g.Ok() && |px| == g.Pixels() && ix + w <= g.mx && iy + h <= g.my && i < g.mx && j < g.my
    ensures g.PixelIndex(i, j) < |px|
    ensures Changes(SquareSum(px, g, ix, iy, w, h), SquareSum(px[g.PixelIndex(i, j) := c], g, ix, iy, w, h),
                    px[g.PixelIndex(i, j)], c, InSquare(ix, iy, w, h, i, j))
    ensures (forall k :: 0 <= k < |px| ==> px[k] == BLACK) ==> SquareSum(px, g, ix, iy, w, h) == Sum(0, 0, 0)
  {
    hide Geometry.PixelIndex, RowSum, Changes;
    InMcu(g, i, j);
    if h > 0 {
      SquareCountsOnce(px, g, ix, iy, w, h - 1, i, j, c);
      RowCountsOnce(px, g, SquareSum(px, g, ix, iy, w, h - 1), SquareSum(px[g.PixelIndex(i, j) := c], g, ix, iy, w, h - 1),
                    ix, iy + h - 1, w, i, j, c, InSquare(ix, iy, w, h - 1, i, j));
      if forall k :: 0 <= k < |px| ==> px[k] == BLACK {
        RowOfBlack(px, g, SquareSum(px, g, ix, iy, w, h - 1), ix, iy + h - 1, w);
      }
    } else {
      NoChange(px[g.PixelIndex(i, j)], c);
    }
  }

  const BLACK: Rgb := Rgb(0, 0, 0)

  lemma RowOfBlack(px: seq<Rgb>, g: Geometry, acc: Sum, ix: nat, iy: nat, n: nat)
    requires g.Ok() && |px| == g.Pixels() && ix + n <= g.mx && iy < g.my && forall k :: 0 <= k < |px| ==> px[k] == BLACK
    requires acc == Sum(0, 0, 0)
    ensures RowSum(px, g, acc, ix, iy, n) == acc
  {
    hide Geometry.PixelIndex, RowSum;
    forall i: nat, j: nat | InSquare(ix, iy, n, 1, i, j) ensures g.PixelIndex(i, j) < |px| && Between(BLACK, px[g.PixelIndex(i, j)], BLACK) {
      InMcu(g, i, j);
    }
    RowSumBetween(BLACK, px, BLACK, g, acc, 0, ix, iy, n);
    assert n * 0 == 0;
  }

  lemma NoChange(before: Rgb, after: Rgb)
    ensures Changes(Sum(0, 0, 0), Sum(0, 0, 0), before, after, false)
  {
  }

  // ---------- what is delivered ----------

  /** Every pixel of the MCU has the colour of its samples. */
  ghost predicate Coloured(px: seq<Rgb>, mem: seq<byte>, g: Geometry, build: Build)
    requires g.Ok() && |mem| == MemoryBytes(g, build)
  {
    |px| == g.Pixels() && forall ix: nat, iy: nat :: ix < g.mx && iy < g.my ==> ColouredAt(px, mem, g, build, ix, iy)
  }

  ghost predicate ColouredAt(px: seq<Rgb>, mem: seq<byte>, g: Geometry, build: Build, ix: nat, iy: nat)
    requires g.Ok() && |mem| == MemoryBytes(g, build) && ix < g.mx && iy < g.my
  {
    NotYetOverwritten(g, build, ix, iy);
    g.PixelIndex(ix, iy) < |px|
    && IsColour(px[g.PixelIndex(ix, iy)], Sample(mem, g, build, g.LumaIndex(ix, iy)),
                Sample(mem, g, build, g.ChromaIndex(ix, iy)) - 128, Sample(mem, g, build, g.ChromaIndex(ix, iy) + 64) - 128)
  }

  lemma PixelsColoured(mem: seq<byte>, g: Geometry, build: Build)
    requires g.Ok() && |mem| == MemoryBytes(g, build) && Clamps(mem, g, build)
    ensures Coloured(Pixels(mem, g, build), mem, g, build)
  {
    hide PixelOf, Sample, IsColour, Pixels, Clamps, Geometry.PixelIndex;
    forall ix: nat, iy: nat | ix < g.mx && iy < g.my ensures ColouredAt(Pixels(mem, g, build), mem, g, build, ix, iy) {
      PixelAt(mem, g, build, ix, iy);
      PixelColour(mem, g, build, ix, iy);
    }
  }

  /**
   What a pixel of the output rectangle shows: at scales 0 to 2 the average of its square of pixels coloured by
   their samples, at scale 3 the colour of its block's first samples.
   */
  ghost predicate Pictures(c: Rgb, mem: seq<byte>, g: Geometry, build: Build, scale: nat, x: nat, y: nat)
    requires g.Ok() && |mem| == MemoryBytes(g, build) && scale <= 3 && x < Scaled(scale, g.mx) && y < Scaled(scale, g.my)
  {
    if scale == 3 then
      BlockAt(g, x, y) < g.Blocks()
      && IsColour(c, Sample(mem, g, build, 64 * BlockAt(g, x, y)),
                  Sample(mem, g, build, 64 * g.Blocks()) - 128, Sample(mem, g, build, 64 * g.Blocks() + 64) - 128)
    else exists px :: Coloured(px, mem, g, build) && c == Average(px, g, scale, x, y)
  }

  /** The pixels `mcu_output` hands over show the samples, each at its place. */
  lemma DeliveredShows(mem: seq<byte>, g: Geometry, build: Build, scale: nat, rx: nat, ry: nat, x: nat, y: nat)
    requires g.Ok() && |mem| == MemoryBytes(g, build) && scale <= 3 && Clamps(mem, g, build)
    requires 0 < rx <= Scaled(scale, g.mx) && ry <= Scaled(scale, g.my) && Rows(ry, Scaled(scale, g.mx)) <= OutPixels(g, scale) && x < rx && y < ry
    ensures Rows(y, rx) + x < Rows(ry, rx)
    ensures Pictures(Cropped(Averaged(mem, g, build, scale), Scaled(scale, g.mx), rx, ry)[Rows(y, rx) + x], mem, g, build, scale, x, y)
  {
    hide Averaged, Cropped, Sample, IsColour, Clamps, Coloured, Average, Corners, Pixels, Descaled, Rows;
    CroppedAt(Averaged(mem, g, build, scale), Scaled(scale, g.mx), rx, ry, x, y);
    AveragedShows(mem, g, build, scale, x, y);
  }

  lemma AveragedShows(mem: seq<byte>, g: Geometry, build: Build, scale: nat, x: nat, y: nat)
    requires g.Ok() && |mem| == MemoryBytes(g, build) && scale <= 3 && Clamps(mem, g, build)
    requires x < Scaled(scale, g.mx) && y < Scaled(scale, g.my) && Rows(y, Scaled(scale, g.mx)) + x < OutPixels(g, scale)
    ensures Pictures(Averaged(mem, g, build, scale)[Rows(y, Scaled(scale, g.mx)) + x], mem, g, build, scale, x, y)
  {
    hide Sample, IsColour, Clamps, Coloured, Average, Corners, Pixels, Descaled;
    if scale == 3 {
      CornerColour(mem, g, build, BlockAt(g, x, y));
    } else {
      PixelsColoured(mem, g, build);
      DescaledAt(Pixels(mem, g, build), g, scale, x, y);
    }
  }

  // ---------- RGB565 unpacked ----------

  /** The word holds the high bits of each channel, red first. */
  lemma Colour565Unpacks(c: Rgb)
    ensures Colour565(c) / 2048 == (c.r as int) / 8
    ensures Colour565(c) / 32 % 64 == (c.g as int) / 4
    ensures Colour565(c) % 32 == (c.b as int) / 8
  {
    var r: nat, g: nat, b: nat := c.r, c.g, c.b;
    DivModUnique(Colour565(c), 2048, r / 8, g / 4 * 32 + b / 8);
    DivModUnique(Colour565(c), 32, r / 8 * 64 + g / 4, b / 8);
    DivModUnique(r / 8 * 64 + g / 4, 64, r / 8, g / 4);
  }
}
