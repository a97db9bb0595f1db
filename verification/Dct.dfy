/**
 The forward DCT (`DCT2D`) in fixed point: it is the cosine transform up to rounding, and on any block of samples
 no 16-bit cast loses anything, no 32-bit sum overflows, and every coefficient fits the categories the entropy
 coder has codes for.
 */
module Dct {
  import opened Bits

  /** One row or column of eight values. */
  datatype Oct = Oct(x0: int, x1: int, x2: int, x3: int, x4: int, x5: int, x6: int, x7: int) {
    predicate Within(lo: int, hi: int) {
      && lo <= x0 <= hi && lo <= x1 <= hi && lo <= x2 <= hi && lo <= x3 <= hi
      && lo <= x4 <= hi && lo <= x5 <= hi && lo <= x6 <= hi && lo <= x7 <= hi
    }

    function At(i: nat): int
      requires i < 8
    {
      if i == 0 then x0 else if i == 1 then x1 else if i == 2 then x2 else if i == 3 then x3
      else if i == 4 then x4 else if i == 5 then x5 else if i == 6 then x6 else x7
    }
  }

  /** `DCT_MUL`. */
  function Mul(v: int, c: int): int {
    Int16(v) * c
  }

  /** `DCT_DESCALE(x, n)` with `d == 1 << n`: an arithmetic shift right after rounding. */
  function Descale(x: int, d: int): int
    requires d > 1
  {
    (x + d / 2) / d
  }

  /** The four sums and four differences `DCT1D` starts from. */
  datatype Butterfly = Butterfly(t0: int, t1: int, t2: int, t3: int, t4: int, t5: int, t6: int, t7: int)

  function Halves(s: Oct): Butterfly {
    Butterfly(s.x0 + s.x7, s.x1 + s.x6, s.x2 + s.x5, s.x3 + s.x4, s.x3 - s.x4, s.x2 - s.x5, s.x1 - s.x6, s.x0 - s.x7)
  }

  /** `DCT1D`: s0 and s4 unscaled, the others scaled by 2^13. */
  function Dct1D(s: Oct): Oct {
    var b := Halves(s);
    var t10, t13, t11, t12 := b.t0 + b.t3, b.t0 - b.t3, b.t1 + b.t2, b.t1 - b.t2;
    var u1 := Mul(t12 + t13, 4433);
    var z5 := Mul(b.t4 + b.t6 + (b.t5 + b.t7), 9633);
    var v1, v2 := Mul(b.t4 + b.t7, -7373), Mul(b.t5 + b.t6, -20995);
    var v3, v4 := Mul(b.t4 + b.t6, -16069) + z5, Mul(b.t5 + b.t7, -3196) + z5;
    Oct(
      t10 + t11,
      Mul(b.t7, 12299) + v1 + v4,
      u1 + Mul(t13, 6270),
      Mul(b.t6, 25172) + v2 + v3,
      t10 - t11,
      Mul(b.t5, 16819) + v2 + v4,
      u1 + Mul(t12, -15137),
      Mul(b.t4, 2446) + v1 + v3)
  }

  predicate IsInt16(v: int) {
    -32768 <= v <= 32767
  }

  predicate IsInt32(v: int) {
    -0x8000_0000 <= v <= 0x7FFF_FFFF
  }

  /** Every value `DCT1D` casts to 16 bits fits. */
  ghost predicate CastsFit(s: Oct) {
    var b := Halves(s);
    var t13, t12 := b.t0 - b.t3, b.t1 - b.t2;
    && IsInt16(t12 + t13) && IsInt16(t13) && IsInt16(t12)
    && IsInt16(b.t4) && IsInt16(b.t5) && IsInt16(b.t6) && IsInt16(b.t7)
    && IsInt16(b.t4 + b.t7) && IsInt16(b.t5 + b.t6)
    && IsInt16(b.t4 + b.t6) && IsInt16(b.t5 + b.t7) && IsInt16(b.t4 + b.t6 + (b.t5 + b.t7))
  }

  /** Every 32-bit intermediate result of `DCT1D` fits. */
  ghost predicate SumsFit(s: Oct) {
    var b := Halves(s);
    var t10, t13, t11, t12 := b.t0 + b.t3, b.t0 - b.t3, b.t1 + b.t2, b.t1 - b.t2;
    var u3, u4 := b.t4 + b.t6, b.t5 + b.t7;
    && IsInt32(t10 + t11) && IsInt32(t10 - t11)
    && IsInt32((t12 + t13) * 4433) && IsInt32((u3 + u4) * 9633)
    && IsInt32(u3 * -16069 + (u3 + u4) * 9633) && IsInt32(u4 * -3196 + (u3 + u4) * 9633)
    && IsInt32(b.t7 * 12299 + (b.t4 + b.t7) * -7373) && IsInt32(b.t6 * 25172 + (b.t5 + b.t6) * -20995)
    && IsInt32(b.t5 * 16819 + (b.t5 + b.t6) * -20995) && IsInt32(b.t4 * 2446 + (b.t4 + b.t7) * -7373)
  }

  /** So do the results, with the rounding term of the larger descale, and the even ones shifted left by 2. */
  ghost predicate ResultsFit(o: Oct) {
    && IsInt32(o.x0 * 4) && IsInt32(o.x4 * 4)
    && IsInt32(o.x1) && IsInt32(o.x2) && IsInt32(o.x3) && IsInt32(o.x5) && IsInt32(o.x6) && IsInt32(o.x7)
    && IsInt32(o.x1 + 131072) && IsInt32(o.x2 + 131072) && IsInt32(o.x3 + 131072)
    && IsInt32(o.x5 + 131072) && IsInt32(o.x6 + 131072) && IsInt32(o.x7 + 131072)
  }

  ghost predicate Lossless(s: Oct) {
    CastsFit(s) && SumsFit(s) && ResultsFit(Linear(s))
  }

  /** The transform `DCT1D` stands for: eight fixed linear combinations of the inputs. */
  function Linear(s: Oct): Oct {
    var b := Halves(s);
    var e, f := b.t0 - b.t3, b.t1 - b.t2;
    Oct(
      b.t0 + b.t3 + b.t1 + b.t2,
      11363 * b.t7 + 9633 * b.t6 + 6437 * b.t5 + 2260 * b.t4,
      10703 * e + 4433 * f,
      9633 * b.t7 - 2259 * b.t6 - 11362 * b.t5 - 6436 * b.t4,
      b.t0 + b.t3 - b.t1 - b.t2,
      6437 * b.t7 - 11362 * b.t6 + 2261 * b.t5 + 9633 * b.t4,
      4433 * e - 10704 * f,
      2260 * b.t7 - 6436 * b.t6 + 9633 * b.t5 - 11363 * b.t4)
  }

  /** Without loss, the butterfly network computes the linear transform exactly. */
  lemma Dct1DIsLinear(s: Oct)
    requires Lossless(s)
    ensures Dct1D(s) == Linear(s)
  {
    var b := Halves(s);
    var t13, t12 := b.t0 - b.t3, b.t1 - b.t2;
    hide Int16, Lossless;
    CastsKeep(s);
  }

  lemma CastsKeep(s: Oct)
    requires Lossless(s)
    ensures var b := Halves(s);
            var t13, t12 := b.t0 - b.t3, b.t1 - b.t2;
            && Int16(t12 + t13) == t12 + t13 && Int16(t13) == t13 && Int16(t12) == t12
            && Int16(b.t4) == b.t4 && Int16(b.t5) == b.t5 && Int16(b.t6) == b.t6 && Int16(b.t7) == b.t7
            && Int16(b.t4 + b.t7) == b.t4 + b.t7 && Int16(b.t5 + b.t6) == b.t5 + b.t6
            && Int16(b.t4 + b.t6) == b.t4 + b.t6 && Int16(b.t5 + b.t7) == b.t5 + b.t7
            && Int16(b.t4 + b.t6 + (b.t5 + b.t7)) == b.t4 + b.t6 + (b.t5 + b.t7)
  {
    hide SumsFit, ResultsFit;
  }

  /**
   Inputs in a range of width at most 8160 lose nothing.  Both passes stay inside it: pass one reads samples,
   pass two reads values within [-4096, 4064] or [-4080, 4080].
   */
  lemma NoLoss(s: Oct, lo: int, hi: int)
    requires s.Within(lo, hi) && -4096 <= lo <= hi <= 4095 && hi - lo <= 8160
    ensures Lossless(s)
  {
    hide CastsFit, SumsFit, ResultsFit;
    NoCastLoss(s, lo, hi);
    NoSumOverflow(s);
    NoResultOverflow(s);
  }

  lemma NoCastLoss(s: Oct, lo: int, hi: int)
    requires s.Within(lo, hi) && hi - lo <= 8160
    ensures CastsFit(s)
  {
  }

  lemma NoSumOverflow(s: Oct)
    requires s.Within(-4096, 4095)
    ensures SumsFit(s)
  {
  }

  /** The odd outputs in terms of the input span. */
  lemma OddBounds(s: Oct, lo: int, hi: int)
    requires s.Within(lo, hi)
    ensures var o, w := Linear(s), 29693 * (hi - lo);
            -w <= o.x1 <= w && -w <= o.x3 <= w && -w <= o.x5 <= w && -w <= o.x7 <= w
  {
    hide *;
    LowOddBounds(s, lo, hi);
    HighOddBounds(s, lo, hi);
  }

  lemma LowOddBounds(s: Oct, lo: int, hi: int)
    requires s.Within(lo, hi)
    ensures var o, w := Linear(s), 29693 * (hi - lo); -w <= o.x1 <= w && -w <= o.x3 <= w
  {
    DifferenceBounds(s, lo, hi);
    hide Halves;
  }

  lemma HighOddBounds(s: Oct, lo: int, hi: int)
    requires s.Within(lo, hi)
    ensures var o, w := Linear(s), 29693 * (hi - lo); -w <= o.x5 <= w && -w <= o.x7 <= w
  {
    DifferenceBounds(s, lo, hi);
    hide Halves;
  }

  /** The even outputs. */
  lemma EvenBounds(s: Oct, lo: int, hi: int)
    requires s.Within(lo, hi)
    ensures var o, w := Linear(s), 30274 * (hi - lo);
            && 8 * lo <= o.x0 <= 8 * hi && -4 * (hi - lo) <= o.x4 <= 4 * (hi - lo)
            && -w <= o.x2 <= w && -w <= o.x6 <= w
  {
  }

  lemma DifferenceBounds(s: Oct, lo: int, hi: int)
    requires s.Within(lo, hi)
    ensures var b, w := Halves(s), hi - lo;
            -w <= b.t4 <= w && -w <= b.t5 <= w && -w <= b.t6 <= w && -w <= b.t7 <= w
  {
  }

  lemma NoResultOverflow(s: Oct)
    requires s.Within(-4096, 4095)
    ensures ResultsFit(Linear(s))
  {
    hide Linear;
    OddBounds(s, -4096, 4095);
    EvenBounds(s, -4096, 4095);
  }

  // ---------- the two passes ----------

  /** A row after pass one (`ROW_BITS` is 2). */
  function RowOut(s: Oct): Oct {
    var o := Dct1D(s);
    Oct(o.x0 * 4, Descale(o.x1, 2048), Descale(o.x2, 2048), Descale(o.x3, 2048),
        o.x4 * 4, Descale(o.x5, 2048), Descale(o.x6, 2048), Descale(o.x7, 2048))
  }

  /** A column after pass two. */
  function ColOut(s: Oct): Oct {
    var o := Dct1D(s);
    Oct(Descale(o.x0, 32), Descale(o.x1, 262144), Descale(o.x2, 262144), Descale(o.x3, 262144),
        Descale(o.x4, 32), Descale(o.x5, 262144), Descale(o.x6, 262144), Descale(o.x7, 262144))
  }

  /** Pass and range: the exact linear values a transform of inputs in [lo, hi] is descaled from. */
  lemma ExactBounds(s: Oct, lo: int, hi: int)
    requires s.Within(lo, hi) && -4096 <= lo <= hi <= 4095 && hi - lo <= 8160
    ensures var o, odd, even := Dct1D(s), 29693 * (hi - lo), 30274 * (hi - lo);
            && 8 * lo <= o.x0 <= 8 * hi && -4 * (hi - lo) <= o.x4 <= 4 * (hi - lo)
            && -even <= o.x2 <= even && -even <= o.x6 <= even
            && -odd <= o.x1 <= odd && -odd <= o.x3 <= odd && -odd <= o.x5 <= odd && -odd <= o.x7 <= odd
  {
    hide *;
    NoLoss(s, lo, hi);
    Dct1DIsLinear(s);
    OddBounds(s, lo, hi);
    EvenBounds(s, lo, hi);
  }

  lemma RowBounds(s: Oct)
    requires s.Within(-128, 127)
    ensures var r := RowOut(s); -4096 <= r.x0 <= 4064 && r.(x0 := 0).Within(-4080, 4080)
  {
    hide Dct1D;
    ExactBounds(s, -128, 127);
  }

  /** Column 0 holds the row sums: its first output is the DC coefficient, the others AC. */
  lemma FirstColumnBounds(s: Oct)
    requires s.Within(-4096, 4064)
    ensures var r := ColOut(s); -1024 <= r.x0 <= 1016 && r.(x0 := 0).Within(-1020, 1020)
  {
    hide Dct1D;
    ExactBounds(s, -4096, 4064);
  }

  /** Every output of another column is an AC coefficient. */
  lemma ColumnBounds(s: Oct)
    requires s.Within(-4080, 4080)
    ensures ColOut(s).Within(-1020, 1020)
  {
    hide Dct1D;
    ExactBounds(s, -4080, 4080);
  }

  function RowOf(p: seq<int>, r: nat): Oct
    requires |p| == 64 && r < 8
  {
    Oct(p[8 * r], p[8 * r + 1], p[8 * r + 2], p[8 * r + 3], p[8 * r + 4], p[8 * r + 5], p[8 * r + 6], p[8 * r + 7])
  }

  function ColOf(p: seq<int>, c: nat): Oct
    requires |p| == 64 && c < 8
  {
    Oct(p[c], p[8 + c], p[16 + c], p[24 + c], p[32 + c], p[40 + c], p[48 + c], p[56 + c])
  }

  /** `q` is `p` with every row transformed. */
  ghost predicate RowsDone(p: seq<int>, q: seq<int>)
    requires |p| == 64 && |q| == 64
  {
    forall r :: 0 <= r < 8 ==> RowOf(q, r) == RowOut(RowOf(p, r))
  }

  ghost predicate ColsDone(p: seq<int>, q: seq<int>)
    requires |p| == 64 && |q| == 64
  {
    forall c :: 0 <= c < 8 ==> ColOf(q, c) == ColOut(ColOf(p, c))
  }

  /** The two-dimensional transform: rows, then columns. */
  ghost predicate Transformed(p: seq<int>, q: seq<int>)
    requires |p| == 64 && |q| == 64
  {
    exists m: seq<int> :: |m| == 64 && RowsDone(p, m) && ColsDone(m, q)
  }

  ghost predicate IsSamples(p: seq<int>) {
    |p| == 64 && forall i :: 0 <= i < 64 ==> -128 <= p[i] <= 127
  }

  /** What the entropy coder needs: the DC coefficient within [-1024, 1016], every AC coefficient within +-1020. */
  ghost predicate CoefficientsInRange(q: seq<int>) {
    |q| == 64 && -1024 <= q[0] <= 1016 && forall i :: 1 <= i < 64 ==> -1020 <= q[i] <= 1020
  }

  /** One row, in place (the body of the first loop of `DCT2D`). */
  method DctRow(p: array<int>, r: nat)
    requires p.Length == 64 && r < 8
    modifies p
    ensures RowOf(p[..], r) == RowOut(RowOf(old(p[..]), r))
    ensures forall i :: 0 <= i < 64 && i / 8 != r ==> p[i] == old(p[i])
  {
    hide Dct1D, Descale;
    var q := 8 * r;
    var o := Dct1D(Oct(p[q], p[q + 1], p[q + 2], p[q + 3], p[q + 4], p[q + 5], p[q + 6], p[q + 7]));
    p[q], p[q + 1], p[q + 2], p[q + 3] := o.x0 * 4, Descale(o.x1, 2048), Descale(o.x2, 2048), Descale(o.x3, 2048);
    p[q + 4], p[q + 5], p[q + 6], p[q + 7] := o.x4 * 4, Descale(o.x5, 2048), Descale(o.x6, 2048), Descale(o.x7, 2048);
  }

  /** One column, in place (the body of the second loop). */
  method DctCol(p: array<int>, c: nat)
    requires p.Length == 64 && c < 8
    modifies p
    ensures ColOf(p[..], c) == ColOut(ColOf(old(p[..]), c))
    ensures forall i :: 0 <= i < 64 && i % 8 != c ==> p[i] == old(p[i])
  {
    hide Dct1D, Descale;
    var o := Dct1D(Oct(p[c], p[8 + c], p[16 + c], p[24 + c], p[32 + c], p[40 + c], p[48 + c], p[56 + c]));
    p[c], p[8 + c], p[16 + c], p[24 + c] := Descale(o.x0, 32), Descale(o.x1, 262144), Descale(o.x2, 262144), Descale(o.x3, 262144);
    p[32 + c], p[40 + c], p[48 + c], p[56 + c] := Descale(o.x4, 32), Descale(o.x5, 262144), Descale(o.x6, 262144), Descale(o.x7, 262144);
  }

  /** `DCT2D`. */
  method DCT2D(p: array<int>)
    requires IsSamples(p[..])
    modifies p
    ensures Transformed(old(p[..]), p[..]) && CosineTransformed(old(p[..]), p[..]) && CoefficientsInRange(p[..])
  {
    hide RowOut, ColOut, Dct1D, CosineTransformed;
    ghost var p0 := p[..];
    for r := 0 to 8
      invariant forall k :: 0 <= k < r ==> RowOf(p[..], k) == RowOut(RowOf(p0, k))
      invariant forall k :: r <= k < 8 ==> RowOf(p[..], k) == RowOf(p0, k)
    {
      ghost var before := p[..];
      DctRow(p, r);
      RowsKept(before, p[..], r);
    }
    ghost var m := p[..];
    for c := 0 to 8
      invariant forall k :: 0 <= k < c ==> ColOf(p[..], k) == ColOut(ColOf(m, k))
      invariant forall k :: c <= k < 8 ==> ColOf(p[..], k) == ColOf(m, k)
    {
      ghost var before := p[..];
      DctCol(p, c);
      ColsKept(before, p[..], c);
    }
    InRange(p0, m, p[..]);
    TransformIsCosine(p0, p[..]);
  }

  lemma RowsKept(p: seq<int>, q: seq<int>, r: nat)
    requires |p| == 64 && |q| == 64 && forall i :: 0 <= i < 64 && i / 8 != r ==> q[i] == p[i]
    ensures forall k :: 0 <= k < 8 && k != r ==> RowOf(q, k) == RowOf(p, k)
  {
  }

  lemma ColsKept(p: seq<int>, q: seq<int>, c: nat)
    requires |p| == 64 && |q| == 64 && forall i :: 0 <= i < 64 && i % 8 != c ==> q[i] == p[i]
    ensures forall k :: 0 <= k < 8 && k != c ==> ColOf(q, k) == ColOf(p, k)
  {
  }

  lemma RowAt(p: seq<int>, i: nat)
    requires |p| == 64 && i < 64
    ensures p[i] == RowOf(p, i / 8).At(i % 8)
  {
  }

  lemma ColAt(p: seq<int>, i: nat)
    requires |p| == 64 && i < 64
    ensures p[i] == ColOf(p, i % 8).At(i / 8)
  {
  }

  /** Pass one leaves the row sums in column 0 and at most 4080 in magnitude elsewhere. */
  lemma MiddleRange(p: seq<int>, m: seq<int>)
    requires IsSamples(p) && |m| == 64 && RowsDone(p, m)
    ensures forall i :: 0 <= i < 64 ==> if i % 8 == 0 then -4096 <= m[i] <= 4064 else -4080 <= m[i] <= 4080
  {
    forall i | 0 <= i < 64 ensures if i % 8 == 0 then -4096 <= m[i] <= 4064 else -4080 <= m[i] <= 4080 {
      hide RowOut;
      RowBounds(RowOf(p, i / 8));
      RowAt(m, i);
    }
  }

  /** For every block of samples neither pass of `DCT2D` loses a bit in a cast or overflows a sum. */
  lemma PassesLossless(p: seq<int>, m: seq<int>)
    requires IsSamples(p) && |m| == 64 && RowsDone(p, m)
    ensures forall k :: 0 <= k < 8 ==> Lossless(RowOf(p, k)) && Lossless(ColOf(m, k))
  {
    hide RowOut, Lossless;
    MiddleRange(p, m);
    forall k | 0 <= k < 8 ensures Lossless(RowOf(p, k)) && Lossless(ColOf(m, k)) {
      NoLoss(RowOf(p, k), -128, 127);
      if k == 0 {
        NoLoss(ColOf(m, 0), -4096, 4064);
      } else {
        NoLoss(ColOf(m, k), -4080, 4080);
      }
    }
  }

  lemma InRangeAt(m: seq<int>, q: seq<int>, i: nat)
    requires |m| == 64 && |q| == 64 && ColsDone(m, q) && i < 64
    requires forall k :: 0 <= k < 64 ==> if k % 8 == 0 then -4096 <= m[k] <= 4064 else -4080 <= m[k] <= 4080
    ensures if i == 0 then -1024 <= q[i] <= 1016 else -1020 <= q[i] <= 1020
  {
    hide ColOut;
    ColAt(q, i);
    if i % 8 == 0 {
      FirstColumnBounds(ColOf(m, 0));
    } else {
      ColumnBounds(ColOf(m, i % 8));
    }
  }

  /** The range theorem: whatever the samples, the transform stays within the entropy coder's categories. */
  lemma InRange(p: seq<int>, m: seq<int>, q: seq<int>)
    requires IsSamples(p) && |m| == 64 && |q| == 64 && RowsDone(p, m) && ColsDone(m, q)
    ensures CoefficientsInRange(q)
  {
    hide RowsDone, ColsDone;
    MiddleRange(p, m);
    forall i | 0 <= i < 64 ensures if i == 0 then -1024 <= q[i] <= 1016 else -1020 <= q[i] <= 1020 {
      InRangeAt(m, q, i);
    }
  }

  /** For every block of samples every coefficient is in range. */
  lemma TransformedInRange(p: seq<int>, q: seq<int>)
    requires IsSamples(p) && |q| == 64 && Transformed(p, q)
    ensures CoefficientsInRange(q)
  {
    var m: seq<int> :| |m| == 64 && RowsDone(p, m) && ColsDone(m, q);
    InRange(p, m, q);
  }

  // ---------- against the cosines ----------

  /** `8192 * sqrt(2) * cos(j * pi / 16)`, rounded, in the first quarter turn. */
  function QuarterTurn(j: nat): int {
    if j == 0 then 11585 else if j == 1 then 11363 else if j == 2 then 10703 else if j == 3 then 9633
    else if j == 4 then 8192 else if j == 5 then 6436 else if j == 6 then 4433 else if j == 7 then 2260 else 0
  }

  /** The same for any angle. */
  function Cosine(j: nat): int {
    var a := j % 32;
    if a <= 8 then QuarterTurn(a) else if a <= 16 then -QuarterTurn(16 - a)
    else if a <= 24 then -QuarterTurn(a - 16) else QuarterTurn(32 - a)
  }

  /**
   The values are cosines: they fall from sqrt(2) to 0, and twice the square of a cosine is one more than the
   cosine of twice the angle (to within 2 in 11585).
   */
  lemma QuarterTurnIsCosine(j: nat)
    requires j <= 8
    ensures QuarterTurn(8) == 0 && 0 <= 2 * 8192 * 8192 - QuarterTurn(0) * QuarterTurn(0) <= QuarterTurn(0)
    ensures var e := QuarterTurn(j) * QuarterTurn(j) * 11585 - 8192 * 8192 * (11585 + Cosine(2 * j));
            -2 * 8192 * 8192 <= e <= 2 * 8192 * 8192
    ensures j < 8 ==> QuarterTurn(j) > QuarterTurn(j + 1)
  {
  }

  /** The `k`-th basis vector of the DCT at position `n`, times `8192 * sqrt(8)`; the constant one has no factor sqrt(2). */
  function Basis(k: nat, n: nat): int {
    if k == 0 then 8192 else Cosine((2 * n + 1) * k)
  }

  function BasisVector(k: nat): Oct {
    Oct(Basis(k, 0), Basis(k, 1), Basis(k, 2), Basis(k, 3), Basis(k, 4), Basis(k, 5), Basis(k, 6), Basis(k, 7))
  }

  lemma BasisValues()
    ensures BasisVector(0) == Oct(8192, 8192, 8192, 8192, 8192, 8192, 8192, 8192)
    ensures BasisVector(1) == Oct(11363, 9633, 6436, 2260, -2260, -6436, -9633, -11363)
    ensures BasisVector(2) == Oct(10703, 4433, -4433, -10703, -10703, -4433, 4433, 10703)
    ensures BasisVector(3) == Oct(9633, -2260, -11363, -6436, 6436, 11363, 2260, -9633)
    ensures BasisVector(4) == Oct(8192, -8192, -8192, 8192, 8192, -8192, -8192, 8192)
    ensures BasisVector(5) == Oct(6436, -11363, 2260, 9633, -9633, -2260, 11363, -6436)
    ensures BasisVector(6) == Oct(4433, -10703, 10703, -4433, -4433, 10703, -10703, 4433)
    ensures BasisVector(7) == Oct(2260, -6436, 9633, -11363, 11363, -9633, 6436, -2260)
  {
    hide Cosine;
    LowCosines();
    HighCosines();
  }

  lemma LowCosines()
    ensures Cosine(1) == 11363 && Cosine(2) == 10703 && Cosine(3) == 9633 && Cosine(4) == 8192 && Cosine(5) == 6436 && Cosine(6) == 4433
    ensures Cosine(7) == 2260 && Cosine(9) == -2260 && Cosine(10) == -4433 && Cosine(11) == -6436 && Cosine(12) == -8192 && Cosine(13) == -9633
    ensures Cosine(14) == -10703 && Cosine(15) == -11363 && Cosine(18) == -10703 && Cosine(20) == -8192 && Cosine(21) == -6436 && Cosine(22) == -4433
    ensures Cosine(25) == 2260 && Cosine(26) == 4433 && Cosine(27) == 6436 && Cosine(28) == 8192
  {
  }

  lemma HighCosines()
    ensures Cosine(30) == 10703 && Cosine(33) == 11363 && Cosine(35) == 9633 && Cosine(36) == 8192 && Cosine(39) == 2260 && Cosine(42) == -4433
    ensures Cosine(44) == -8192 && Cosine(45) == -9633 && Cosine(49) == -11363 && Cosine(52) == -8192 && Cosine(54) == -4433 && Cosine(55) == -2260
    ensures Cosine(60) == 8192 && Cosine(63) == 11363 && Cosine(65) == 11363 && Cosine(66) == 10703 && Cosine(75) == -6436 && Cosine(77) == -9633
    ensures Cosine(78) == -10703 && Cosine(90) == 4433 && Cosine(91) == 6436 && Cosine(105) == -2260
  {
  }

  /** The sum of a row or column against a basis vector. */
  function Dot(k: nat, s: Oct): int {
    s.x0 * Basis(k, 0) + s.x1 * Basis(k, 1) + s.x2 * Basis(k, 2) + s.x3 * Basis(k, 3)
    + s.x4 * Basis(k, 4) + s.x5 * Basis(k, 5) + s.x6 * Basis(k, 6) + s.x7 * Basis(k, 7)
  }

  /** The cosine sums of the rows, down a column. */
  function RowSums(p: seq<int>, v: nat): Oct
    requires |p| == 64
  {
    Oct(Dot(v, RowOf(p, 0)), Dot(v, RowOf(p, 1)), Dot(v, RowOf(p, 2)), Dot(v, RowOf(p, 3)),
        Dot(v, RowOf(p, 4)), Dot(v, RowOf(p, 5)), Dot(v, RowOf(p, 6)), Dot(v, RowOf(p, 7)))
  }

  /** The double sum of the block against the basis vectors `u` (vertical) and `v` (horizontal). */
  function CosineSum(p: seq<int>, u: nat, v: nat): int
    requires |p| == 64
  {
    Dot(u, RowSums(p, v))
  }

  lemma EvenDot(k: nat, s: Oct)
    requires k < 8 && k % 2 == 0
    ensures Dot(k, s)
         == if k == 0 then 8192 * (s.x0 + s.x1 + s.x2 + s.x3 + s.x4 + s.x5 + s.x6 + s.x7)
            else if k == 2 then 10703 * (s.x0 - s.x3 - s.x4 + s.x7) + 4433 * (s.x1 - s.x2 - s.x5 + s.x6)
            else if k == 4 then 8192 * (s.x0 - s.x1 - s.x2 + s.x3 + s.x4 - s.x5 - s.x6 + s.x7)
            else 4433 * (s.x0 - s.x3 - s.x4 + s.x7) - 10703 * (s.x1 - s.x2 - s.x5 + s.x6)
  {
    hide Basis;
    BasisValues();
  }

  lemma OddDot(k: nat, s: Oct)
    requires k < 8 && k % 2 == 1
    ensures Dot(k, s)
         == if k == 1 then 11363 * (s.x0 - s.x7) + 9633 * (s.x1 - s.x6) + 6436 * (s.x2 - s.x5) + 2260 * (s.x3 - s.x4)
            else if k == 3 then 9633 * (s.x0 - s.x7) - 2260 * (s.x1 - s.x6) - 11363 * (s.x2 - s.x5) - 6436 * (s.x3 - s.x4)
            else if k == 5 then 6436 * (s.x0 - s.x7) - 11363 * (s.x1 - s.x6) + 2260 * (s.x2 - s.x5) + 9633 * (s.x3 - s.x4)
            else 2260 * (s.x0 - s.x7) - 6436 * (s.x1 - s.x6) + 9633 * (s.x2 - s.x5) - 11363 * (s.x3 - s.x4)
  {
    hide Basis;
    BasisValues();
  }

  /** The basis vectors are orthogonal and of the same length (to within 1 in 10000). */
  lemma BasisOrthogonal(j: nat, k: nat)
    requires j < 8 && k < 8
    ensures var d := Dot(k, BasisVector(j)) - if j == k then 8 * 8192 * 8192 else 0;
            -48128 <= d <= 48128
  {
    hide Dot, Basis;
    BasisValues();
    if k % 2 == 0 {
      EvenDot(k, BasisVector(j));
    } else {
      OddDot(k, BasisVector(j));
    }
  }

  /** `a` and `b` differ by at most `d`. */
  predicate Near(a: int, b: int, d: int) {
    -d <= a - b <= d
  }

  /** The constants of the butterfly network are within 1 of the cosines. */
  lemma LinearIsCosine(s: Oct, lo: int, hi: int, k: nat)
    requires s.Within(lo, hi) && k < 8
    ensures var scaled := if k == 0 || k == 4 then 8192 * Linear(s).At(k) else Linear(s).At(k);
            Near(scaled, Dot(k, s), 4 * (hi - lo))
  {
    hide *;
    if k % 2 == 0 {
      EvenIsCosine(s, lo, hi, k);
    } else {
      OddIsCosine(s, lo, hi, k);
    }
  }

  lemma EvenIsCosine(s: Oct, lo: int, hi: int, k: nat)
    requires s.Within(lo, hi) && k < 8 && k % 2 == 0
    ensures var scaled := if k == 0 || k == 4 then 8192 * Linear(s).At(k) else Linear(s).At(k);
            Near(scaled, Dot(k, s), 4 * (hi - lo))
  {
    hide Dot;
    EvenDot(k, s);
  }

  lemma OddIsCosine(s: Oct, lo: int, hi: int, k: nat)
    requires s.Within(lo, hi) && k < 8 && k % 2 == 1
    ensures Near(Linear(s).At(k), Dot(k, s), 4 * (hi - lo))
  {
    hide Dot;
    OddDot(k, s);
  }

  /** A row after pass one is within rounding of its cosine sums. */
  lemma RowIsCosine(s: Oct, k: nat)
    requires s.Within(-128, 127) && k < 8
    ensures Near(2048 * RowOut(s).At(k), Dot(k, s), 2048)
  {
    hide Dct1D, Dot, Linear, Lossless;
    NoLoss(s, -128, 127);
    Dct1DIsLinear(s);
    LinearIsCosine(s, -128, 127, k);
  }

  lemma ColIsCosine(s: Oct, lo: int, hi: int, k: nat)
    requires s.Within(lo, hi) && -4096 <= lo <= hi <= 4095 && hi - lo <= 8160 && k < 8
    ensures Near(262144 * ColOut(s).At(k), Dot(k, s), 163840)
  {
    hide Dct1D, Dot, Linear, Lossless;
    NoLoss(s, lo, hi);
    Dct1DIsLinear(s);
    LinearIsCosine(s, lo, hi, k);
  }

  lemma DotNear(k: nat, a: Oct, b: Oct, d: int)
    requires k < 8 && Near(a.x0, b.x0, d) && Near(a.x1, b.x1, d) && Near(a.x2, b.x2, d) && Near(a.x3, b.x3, d)
    requires Near(a.x4, b.x4, d) && Near(a.x5, b.x5, d) && Near(a.x6, b.x6, d) && Near(a.x7, b.x7, d)
    ensures Near(Dot(k, a), Dot(k, b), 65536 * d)
  {
    hide Dot;
    if k % 2 == 0 {
      EvenDot(k, a);
      EvenDot(k, b);
    } else {
      OddDot(k, a);
      OddDot(k, b);
    }
  }

  /** Every value times 2048, the scale of pass one. */
  function Scaled(s: Oct): Oct {
    Oct(2048 * s.x0, 2048 * s.x1, 2048 * s.x2, 2048 * s.x3, 2048 * s.x4, 2048 * s.x5, 2048 * s.x6, 2048 * s.x7)
  }

  lemma DotScaled(k: nat, s: Oct)
    requires k < 8
    ensures Dot(k, Scaled(s)) == 2048 * Dot(k, s)
  {
    hide Dot;
    if k % 2 == 0 {
      EvenDot(k, s);
      EvenDot(k, Scaled(s));
    } else {
      OddDot(k, s);
      OddDot(k, Scaled(s));
    }
  }

  lemma MiddleIsCosine(p: seq<int>, m: seq<int>, r: nat, v: nat)
    requires IsSamples(p) && |m| == 64 && RowsDone(p, m) && r < 8 && v < 8
    ensures Near(2048 * m[8 * r + v], Dot(v, RowOf(p, r)), 2048)
  {
    hide RowOut, Dot;
    RowIsCosine(RowOf(p, r), v);
    RowAt(m, 8 * r + v);
  }

  lemma ColumnIsCosine(p: seq<int>, m: seq<int>, u: nat, v: nat)
    requires IsSamples(p) && |m| == 64 && RowsDone(p, m) && u < 8 && v < 8
    ensures Near(2048 * Dot(u, ColOf(m, v)), CosineSum(p, u, v), 0x800_0000)
  {
    hide Dot, RowsDone;
    MiddleIsCosine(p, m, 0, v);
    MiddleIsCosine(p, m, 1, v);
    MiddleIsCosine(p, m, 2, v);
    MiddleIsCosine(p, m, 3, v);
    MiddleIsCosine(p, m, 4, v);
    MiddleIsCosine(p, m, 5, v);
    MiddleIsCosine(p, m, 6, v);
    MiddleIsCosine(p, m, 7, v);
    DotNear(u, Scaled(ColOf(m, v)), RowSums(p, v), 2048);
    DotScaled(u, ColOf(m, v));
  }

  /** `8 * 8192 * 8192`: the cosine sum of a coefficient of 1. */
  const UNIT: int := 0x2000_0000

  /** Every coefficient is less than 1 away from its cosine sum. */
  ghost predicate CosineTransformed(p: seq<int>, q: seq<int>)
    requires |p| == 64 && |q| == 64
  {
    forall u, v :: 0 <= u < 8 && 0 <= v < 8 ==> Near(UNIT * q[8 * u + v], CosineSum(p, u, v), UNIT - 1)
  }

  /**
   The transform is the DCT: for every block of samples, each coefficient (vertical frequency `u`, horizontal `v`)
   is less than 1 away from the double sum of the samples against the cosines.
   */
  lemma TransformIsCosine(p: seq<int>, q: seq<int>)
    requires IsSamples(p) && |q| == 64 && Transformed(p, q)
    ensures CosineTransformed(p, q)
  {
    hide RowsDone, ColsDone, CosineSum;
    var m: seq<int> :| |m| == 64 && RowsDone(p, m) && ColsDone(m, q);
    forall u, v | 0 <= u < 8 && 0 <= v < 8 ensures Near(UNIT * q[8 * u + v], CosineSum(p, u, v), UNIT - 1) {
      CoefficientIsCosine(p, m, q, u, v);
    }
  }

  lemma CoefficientIsCosine(p: seq<int>, m: seq<int>, q: seq<int>, u: nat, v: nat)
    requires IsSamples(p) && |m| == 64 && |q| == 64 && RowsDone(p, m) && ColsDone(m, q) && u < 8 && v < 8
    ensures Near(UNIT * q[8 * u + v], CosineSum(p, u, v), UNIT - 1)
  {
    hide ColOut, Dot, RowsDone, CosineSum, IsSamples;
    ColumnIsCosine(p, m, u, v);
    MiddleRange(p, m);
    ColAt(q, 8 * u + v);
    if v == 0 {
      ColIsCosine(ColOf(m, v), -4096, 4064, u);
    } else {
      ColIsCosine(ColOf(m, v), -4080, 4080, u);
    }
  }
}
