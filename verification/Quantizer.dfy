/**
 Quantisation in the encoder: the tables scaled by quality, and `load_quantized_coefficients`.
 */
module Quantizer {
  import opened Bits
  import opened Entropy
  import opened Zigzag
  import Dct

  function Min(a: int, b: int): int {
    if a < b then a else b
  }

  function Max(a: int, b: int): int {
    if a > b then a else b
  }

  ghost predicate IsQuantTable(q: seq<int>) {
    |q| == 64 && forall i :: 0 <= i < 64 ==> 1 <= q[i] <= 255
  }

  /** `s_std_lum_quant` and `s_std_croma_quant`, in zigzag order. */
  function LumQuant(i: nat): (q: int)
    ensures 1 <= q <= 255
  {
    match i
    case 0 => 16 case 1 => 11 case 2 => 12 case 3 => 14 case 4 => 12 case 5 => 10 case 6 => 16 case 7 => 14
    case 8 => 13 case 9 => 14 case 10 => 18 case 11 => 17 case 12 => 16 case 13 => 19 case 14 => 24 case 15 => 40
    case 16 => 26 case 17 => 24 case 18 => 22 case 19 => 22 case 20 => 24 case 21 => 49 case 22 => 35 case 23 => 37
    case 24 => 29 case 25 => 40 case 26 => 58 case 27 => 51 case 28 => 61 case 29 => 60 case 30 => 57 case 31 => 51
    case 32 => 56 case 33 => 55 case 34 => 64 case 35 => 72 case 36 => 92 case 37 => 78 case 38 => 64 case 39 => 68
    case 40 => 87 case 41 => 69 case 42 => 55 case 43 => 56 case 44 => 80 case 45 => 109 case 46 => 81 case 47 => 87
    case 48 => 95 case 49 => 98 case 50 => 103 case 51 => 104 case 52 => 103 case 53 => 62 case 54 => 77 case 55 => 113
    case 56 => 121 case 57 => 112 case 58 => 100 case 59 => 120 case 60 => 92 case 61 => 101 case 62 => 103 case 63 => 99
    case _ => 99
  }

  function ChromaQuant(i: nat): (q: int)
    ensures 1 <= q <= 255
  {
    match i
    case 0 => 17 case 1 => 18 case 2 => 18 case 3 => 24 case 4 => 21 case 5 => 24 case 6 => 47 case 7 => 26
    case 8 => 26 case 9 => 47 case 10 => 99 case 11 => 66 case 12 => 56 case 13 => 66
    case _ => 99
  }

  function StandardTable(chroma: bool): (q: seq<int>)
    ensures IsQuantTable(q)
  {
    seq(64, i requires 0 <= i < 64 => if chroma then ChromaQuant(i) else LumQuant(i))
  }

  /** The percentage a quality of 1..100 scales the standard tables by. */
  function Percentage(quality: int): int
    requires 1 <= quality <= 100
  {
    if quality < 50 then 5000 / quality else 200 - quality * 2
  }

  /** A table entry scaled and clamped to a byte. */
  function ScaledEntry(v: int, percentage: int): int {
    Min(Max((v * percentage + 50) / 100, 1), 255)
  }

  /** The tables for a quality, luma and chroma. */
  function TablesFor(quality: int): (t: seq<seq<int>>)
    requires 1 <= quality <= 100
    ensures |t| == 2 && IsQuantTable(t[0]) && IsQuantTable(t[1])
  {
    [seq(64, i requires 0 <= i < 64 => ScaledEntry(StandardTable(false)[i], Percentage(quality))),
     seq(64, i requires 0 <= i < 64 => ScaledEntry(StandardTable(true)[i], Percentage(quality)))]
  }

  /** `compute_quant_table`: the standard table scaled to a quality of 1..100. */
  method ComputeQuantTable(src: seq<int>, quality: int) returns (dst: seq<int>)
    requires IsQuantTable(src) && 1 <= quality <= 100
    ensures IsQuantTable(dst) && forall i :: 0 <= i < 64 ==> dst[i] == ScaledEntry(src[i], Percentage(quality))
    ensures quality == 50 ==> dst == src
    ensures quality == 100 ==> forall i :: 0 <= i < 64 ==> dst[i] == 1
  {
    var q := if quality < 50 then 5000 / quality else 200 - quality * 2;
    dst := [];
    for i := 0 to 64
      invariant |dst| == i && forall k :: 0 <= k < i ==> 1 <= dst[k] <= 255
      invariant forall k :: 0 <= k < i ==> dst[k] == ScaledEntry(src[k], q)
      invariant quality == 50 ==> dst == src[..i]
      invariant quality == 100 ==> forall k :: 0 <= k < i ==> dst[k] == 1
    {
      var j := (src[i] * q + 50) / 100;
      dst := dst + [Min(Max(j, 1), 255)];
    }
  }

  /** Quality 100 quantises by one, quality 50 by the standard tables; a lower quality never quantises finer. */
  lemma QualityMonotone(p: int, quality: int, i: nat)
    requires 1 <= p <= quality <= 100 && i < 64
    ensures forall c :: 0 <= c < 2 ==> TablesFor(quality)[c][i] <= TablesFor(p)[c][i]
  {
    PercentageMonotone(p, quality);
    hide Percentage, LumQuant, ChromaQuant, ScaledEntry;
    forall c | 0 <= c < 2 ensures TablesFor(quality)[c][i] <= TablesFor(p)[c][i] {
      ScaledMonotone(StandardTable(c == 1)[i], Percentage(quality), Percentage(p));
    }
  }

  lemma PercentageMonotone(p: int, quality: int)
    requires 1 <= p <= quality <= 100
    ensures 0 <= Percentage(quality) <= Percentage(p)
  {
    if quality < 50 {
      var k, r := DivMod(5000, quality);
      var k', r' := DivMod(5000, p);
      if k' < k {
        MulMonotone(k' + 1, k, quality);
        MulMonotone(p, quality, k' + 1);
        MulDistribute(k', 1, p);
      }
    } else if p < 50 {
      var k', r' := DivMod(5000, p);
      if k' < 100 {
        MulMonotone(k' + 1, 100, p);
        MulDistribute(k', 1, p);
      }
    }
  }

  lemma ScaledMonotone(v: int, a: int, b: int)
    requires v >= 0 && a <= b
    ensures ScaledEntry(v, a) <= ScaledEntry(v, b)
  {
    MulMonotone(a, b, v);
  }

  /**
   What scaling means.  Below quality 50 an entry grows as 50 to the quality, and from 50 on it shrinks as
   100 less the quality to 50, up to rounding; clamped entries lie on the right side.
   */
  lemma ScaledMeans(v: int, quality: int)
    requires 1 <= v <= 255 && 1 <= quality <= 100
    ensures var d := ScaledEntry(v, Percentage(quality));
            && (quality < 50 && d > 1 ==> 100 * (quality * d - 50 * v) <= 50 * quality)
            && (quality < 50 && d < 255 ==> 100 * (50 * v - quality * d) <= (v + 50) * quality)
            && (quality >= 50 && d > 1 ==> 2 * (50 * d - (100 - quality) * v) <= 50)
            && (quality >= 50 && d < 255 ==> 2 * ((100 - quality) * v - 50 * d) <= 50)
  {
    var p := Percentage(quality);
    var j := (v * p + 50) / 100;
    assert 100 * j - 50 <= v * p <= 100 * j + 49;
    if quality < 50 {
      PercentageBounds(quality, p);
      ScaledBounds(v, quality, p, j);
    } else {
      assert v * p == 2 * ((100 - quality) * v);
    }
  }

  lemma PercentageBounds(quality: int, p: int)
    requires 1 <= quality < 50 && p == 5000 / quality
    ensures 5000 - quality <= quality * p <= 5000
  {
    var k, r := DivMod(5000, quality);
  }

  lemma ScaledBounds(v: int, quality: int, p: int, j: int)
    requires v >= 1 && quality >= 1 && 5000 - quality <= quality * p <= 5000 && 100 * j - 50 <= v * p <= 100 * j + 49
    ensures 100 * (quality * j - 50 * v) <= 50 * quality && 100 * (50 * v - quality * j) <= (v + 50) * quality
  {
    MulMonotone(100 * j - 50, v * p, quality);
    MulMonotone(v * p, 100 * j + 50, quality);
    MulMonotone(5000 - quality, quality * p, v);
    MulMonotone(quality * p, 5000, v);
    MulAssociate(v, p, quality);
  }

  /** One coefficient, as the source branches on its sign. */
  function Quantize(v: int, q: int): int
    requires q >= 1
  {
    if v < 0 then
      if -v + q / 2 < q then 0 else -((-v + q / 2) / q)
    else
      if v + q / 2 < q then 0 else (v + q / 2) / q
  }

  lemma RoundedQuotient(a: nat, q: int) returns (k: int)
    requires q >= 1
    ensures k == (a + q / 2) / q
    ensures 0 <= k <= a && 2 * a - q <= 2 * (q * k) <= 2 * a + q
    ensures a + q / 2 < q ==> k == 0
  {
    var h := q / 2;
    var r;
    k, r := DivMod(a + h, q);
    QuotientBounds(a, q, k, r, k * q);
    NotAbove(a, q, k);
    if k >= 1 {
      MulAtLeast(k, q);
    }
  }

  lemma QuotientBounds(a: nat, q: int, k: int, r: int, p: int)
    requires q >= 1 && p == k * q == q * k && a + q / 2 == p + r && 0 <= r < q
    ensures 2 * a - q <= 2 * p <= 2 * a + q
  {
  }

  lemma NotAbove(a: nat, q: int, k: int)
    requires q >= 1 && k * q <= a + q / 2
    ensures k <= a
  {
    if k > a {
      MulMonotone(a + 1, k, q);
      MulDistribute(a, 1, q);
      MulMonotone(1, q, a);
    }
  }

  /** Quantising rounds to a nearest multiple, and never enlarges. */
  lemma QuantizeNearest(v: int, q: int)
    requires q >= 1
    ensures 2 * Abs(v - q * Quantize(v, q)) <= q
    ensures Abs(Quantize(v, q)) <= Abs(v)
  {
    var k := RoundedQuotient(Abs(v), q);
    if v < 0 {
      assert Quantize(v, q) == -k;
      assert q * -k == -(q * k);
    } else {
      assert Quantize(v, q) == k;
    }
  }

  /** `load_quantized_coefficients`: zigzag order, one table entry per coefficient. */
  method LoadQuantizedCoefficients(sample: array<int>, q: seq<int>, coef: array<int>)
    requires sample.Length == 64 && coef.Length == 64 && sample != coef && IsQuantTable(q)
    modifies coef
    ensures forall i :: 0 <= i < 64 ==> Zig(i) < 64 && coef[i] == Quantize(sample[Zig(i)], q[i])
  {
    hide Zig, Quantize;
    ZigzagIsPermutation();
    for i := 0 to 64
      invariant forall k :: 0 <= k < i ==> Zig(k) < 64 && coef[k] == Quantize(sample[Zig(k)], q[k])
    {
      assert InverseAt(i);
      coef[i] := Quantize(sample[Zig(i)], q[i]);
    }
  }

  ghost predicate QuantizedFrom(coef: seq<int>, sample: seq<int>, q: seq<int>) {
    && |coef| == 64 && |sample| == 64 && IsQuantTable(q)
    && forall i :: 0 <= i < 64 ==> Zig(i) < 64 && coef[i] == Quantize(sample[Zig(i)], q[i])
  }

  /** A DC coefficient the decoder's predictor can follow with 11 bits, AC coefficients of at most 10 bits. */
  ghost predicate InCategories(coef: seq<int>) {
    |coef| == 64 && -1024 <= coef[0] <= 1016 && forall i :: 1 <= i < 64 ==> NBits(Abs(coef[i])) <= 10
  }

  /**
   Every symbol the encoder looks up has a code: from any samples and any quantiser table of 1..255, AC
   coefficients need at most 10 bits and DC differences at most 11.
   */
  lemma SymbolsInRange(sample: seq<int>, q: seq<int>, coef: seq<int>)
    requires Dct.CoefficientsInRange(sample) && QuantizedFrom(coef, sample, q)
    ensures InCategories(coef)
  {
    ZigzagIsPermutation();
    Pow2Values();
    hide Quantize, NBits, Zig, Inv, Abs;
    ZeroFirst();
    forall i | 1 <= i < 64 ensures NBits(Abs(coef[i])) <= 10 {
      assert InverseAt(i) && InverseAt(0);
      SmallCategory(sample[Zig(i)], q[i]);
    }
    SmallDc(sample[0], q[0]);
  }

  lemma ZeroFirst()
    ensures Zig(0) == 0
  {
  }

  lemma SmallCategory(v: int, q: int)
    requires -1020 <= v <= 1020 && 1 <= q
    ensures NBits(Abs(Quantize(v, q))) <= 10
  {
    QuantizeNearest(v, q);
    NBitsBound(Abs(Quantize(v, q)), 10) by {
      Pow2Values();
    }
  }

  lemma SmallDc(v: int, q: int)
    requires -1024 <= v <= 1016 && 1 <= q
    ensures -1024 <= Quantize(v, q) <= 1016
  {
    QuantizeNearest(v, q);
  }
}
