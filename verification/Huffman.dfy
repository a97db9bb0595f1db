/**
 Canonical Huffman codes (ITU-T T.81 Annex C): the reference definition, its properties, and the two
 programs that build the code words, `compute_huffman_table` in the encoder and `create_huffman_tbl` in the
 decoder.
 */
module Huffman {
  import opened Bits

  /** One code word. */
  datatype Code = Code(value: nat, len: nat) {
    function Word(): seq<bool> {
      BitsOf(value, len)
    }
  }

  /** `counts[l - 1]` code words have length `l`; `vals` lists their symbols in code order. */
  datatype Table = Table(counts: seq<byte>, vals: seq<byte>) {

    ghost predicate Valid() {
      Kraft(counts) && |vals| == Total(counts, 16)
    }
  }

  /** How many code words have length at most `l`. */
  function Total(counts: seq<byte>, l: nat): nat
    requires l <= |counts|
  {
    if l == 0 then 0 else Total(counts, l - 1) + counts[l - 1]
  }

  /** The smallest code value of length `l`. */
  function FirstCode(counts: seq<byte>, l: nat): nat
    requires 1 <= l <= |counts| + 1
  {
    if l == 1 then 0 else 2 * (FirstCode(counts, l - 1) + counts[l - 2])
  }

  /** The share of the 16-bit code space taken by the code words of length at most `l`. */
  function KraftSum(counts: seq<byte>, l: nat): nat
    requires l <= |counts| <= 16
  {
    if l == 0 then 0 else KraftSum(counts, l - 1) + counts[l - 1] * Pow2(16 - l)
  }

  ghost predicate Kraft(counts: seq<byte>) {
    |counts| == 16 && KraftSum(counts, 16) <= Pow2(16)
  }

  /** The code words of length at most `l`, in order. */
  function Codes(counts: seq<byte>, l: nat): (cs: seq<Code>)
    requires l <= |counts|
    ensures |cs| == Total(counts, l)
  {
    if l == 0 then [] else Codes(counts, l - 1) + seq(counts[l - 1], j requires 0 <= j => Code(FirstCode(counts, l) + j, l))
  }

  function Canonical(counts: seq<byte>): (cs: seq<Code>)
    requires |counts| == 16
    ensures |cs| == Total(counts, 16)
  {
    Codes(counts, 16)
  }

  // ---------- reference properties ----------

  lemma {:induction false} TotalMonotone(counts: seq<byte>, l: nat, m: nat)
    requires l <= m <= |counts|
    ensures Total(counts, l) <= Total(counts, m)
  {
    if l < m {
      TotalMonotone(counts, l, m - 1);
    }
  }

  lemma {:induction false} KraftSumMonotone(counts: seq<byte>, l: nat, m: nat)
    requires l <= m <= |counts| <= 16
    ensures KraftSum(counts, l) <= KraftSum(counts, m)
  {
    if l < m {
      KraftSumMonotone(counts, l, m - 1);
      assert counts[m - 1] * Pow2(16 - m) >= 0;
    }
  }

  lemma SearchStart(counts: seq<byte>)
    ensures ValueOf([]) == 0 && Total(counts, 0) == 0
  {
  }

  lemma TotalStep(counts: seq<byte>, l: nat)
    requires 1 <= l <= |counts|
    ensures Total(counts, l) == Total(counts, l - 1) + counts[l - 1]
  {
  }

  lemma FirstCodeStep(counts: seq<byte>, l: nat)
    requires 1 <= l <= |counts|
    ensures FirstCode(counts, l + 1) == 2 * (FirstCode(counts, l) + counts[l - 1])
  {
  }

  lemma KraftSumStep(counts: seq<byte>, l: nat)
    requires 1 <= l <= |counts| <= 16
    ensures KraftSum(counts, l) == KraftSum(counts, l - 1) + counts[l - 1] * Pow2(16 - l)
  {
  }

  /** The first code of length `l` is the code space used so far, in units of that length. */
  lemma {:induction false} FirstCodeIsKraftSum(counts: seq<byte>, l: nat)
    requires 1 <= l <= |counts| == 16
    ensures FirstCode(counts, l) * Pow2(16 - l) == KraftSum(counts, l - 1)
    ensures (FirstCode(counts, l) + counts[l - 1]) * Pow2(16 - l) == KraftSum(counts, l)
  {
    if l > 1 {
      hide *;
      FirstCodeIsKraftSum(counts, l - 1);
      FirstCodeStep(counts, l - 1);
      Pow2Step(16 - (l - 1));
      MulDouble(FirstCode(counts, l - 1) + counts[l - 2], Pow2(16 - l));
    }
    KraftSumStep(counts, l);
    MulDistribute(FirstCode(counts, l), counts[l - 1], Pow2(16 - l));
  }

  /** Every code of length `l` fits in `l` bits. */
  lemma CodesFit(counts: seq<byte>, l: nat)
    requires Kraft(counts) && 1 <= l <= 16
    ensures FirstCode(counts, l) + counts[l - 1] <= Pow2(l)
  {
    hide *;
    KraftBound(counts);
    FirstCodeIsKraftSum(counts, l);
    KraftSumMonotone(counts, l, 16);
    Pow2Add(l, 16 - l);
    MulCancel(FirstCode(counts, l) + counts[l - 1], Pow2(l), Pow2(16 - l));
  }

  lemma KraftBound(counts: seq<byte>)
    requires Kraft(counts)
    ensures |counts| == 16 && KraftSum(counts, 16) <= Pow2(16)
  {
  }

  /** Codes of length `m` start beyond every extension of the codes of a shorter length `l`. */
  lemma {:induction false} FirstCodeBeyond(counts: seq<byte>, l: nat, m: nat)
    requires 1 <= l < m <= |counts| + 1
    ensures (FirstCode(counts, l) + counts[l - 1]) * Pow2(m - l) <= FirstCode(counts, m)
  {
    FirstCodeStep(counts, m - 1);
    if l + 1 == m {
      assert Pow2(1) == 2;
    } else {
      hide *;
      FirstCodeBeyond(counts, l, m - 1);
      Pow2Step(m - l);
      MulDouble(FirstCode(counts, l) + counts[l - 1], Pow2(m - 1 - l));
    }
  }

  /** Where the code words of length `l` sit in the canonical list. */
  lemma {:induction false} CodesAt(counts: seq<byte>, m: nat, l: nat, j: nat)
    requires 1 <= l <= m <= |counts| && j < counts[l - 1]
    ensures Total(counts, l - 1) + j < Total(counts, m)
    ensures Codes(counts, m)[Total(counts, l - 1) + j] == Code(FirstCode(counts, l) + j, l)
  {
    TotalMonotone(counts, l, m);
    if l < m {
      CodesAt(counts, m - 1, l, j);
    }
  }

  /** Every position of the canonical list is the `j`-th code of some length. */
  lemma {:induction false} CodesFind(counts: seq<byte>, m: nat, k: nat) returns (l: nat, j: nat)
    requires m <= |counts| && k < Total(counts, m)
    ensures 1 <= l <= m && j < counts[l - 1] && k == Total(counts, l - 1) + j
    ensures Codes(counts, m)[k] == Code(FirstCode(counts, l) + j, l)
  {
    if k < Total(counts, m - 1) {
      l, j := CodesFind(counts, m - 1, k);
    } else {
      l, j := m, k - Total(counts, m - 1);
    }
  }

  /** Each code fits its length, and a later code lies beyond every extension of an earlier one. */
  lemma CanonicalOrdered(counts: seq<byte>, p: nat, q: nat)
    requires Kraft(counts) && p < q < Total(counts, 16)
    ensures var a, b := Canonical(counts)[p], Canonical(counts)[q];
            1 <= a.len <= b.len <= 16 && (a.value + 1) * Pow2(b.len - a.len) <= b.value
  {
    var l, i := CodesFind(counts, 16, p);
    var m, j := CodesFind(counts, 16, q);
    PositionsOrdered(counts, l, i, m, j);
    ValuesOrdered(counts, l, i, m, j);
  }

  lemma ValuesOrdered(counts: seq<byte>, l: nat, i: nat, m: nat, j: nat)
    requires 1 <= l <= m <= |counts| && i < counts[l - 1] && j < counts[m - 1] && (l == m ==> i < j)
    ensures (FirstCode(counts, l) + i + 1) * Pow2(m - l) <= FirstCode(counts, m) + j
  {
    hide *;
    if l < m {
      FirstCodeBeyond(counts, l, m);
      MulMonotone(FirstCode(counts, l) + i + 1, FirstCode(counts, l) + counts[l - 1], Pow2(m - l));
    } else {
      Pow2Zero();
    }
  }

  lemma PositionsOrdered(counts: seq<byte>, l: nat, i: nat, m: nat, j: nat)
    requires 1 <= l <= |counts| && 1 <= m <= |counts| && i < counts[l - 1] && j < counts[m - 1]
    requires Total(counts, l - 1) + i < Total(counts, m - 1) + j
    ensures l <= m
  {
    if l > m {
      TotalMonotone(counts, m, l - 1);
    }
  }

  lemma CanonicalFits(counts: seq<byte>, p: nat)
    requires Kraft(counts) && p < Total(counts, 16)
    ensures var a := Canonical(counts)[p]; 1 <= a.len <= 16 && a.value < Pow2(a.len)
  {
    var l, i := CodesFind(counts, 16, p);
    CodesFit(counts, l);
  }

  /** A word that starts with the `m` bits of `v` has a value in the range `v` covers at its length. */
  lemma PrefixValue(v: nat, m: nat, w: nat, n: nat)
    requires v < Pow2(m) && w < Pow2(n) && BitsOf(v, m) <= BitsOf(w, n)
    ensures m <= n && v * Pow2(n - m) <= w < (v + 1) * Pow2(n - m)
  {
    hide *;
    var rest := BitsOf(w, n)[m..];
    assert BitsOf(w, n) == BitsOf(v, m) + rest;
    ValueOfBitsOf(v, m);
    ValueOfBitsOf(w, n);
    ValueOfExtension(BitsOf(v, m), rest);
  }

  /** No code word is a prefix of another. */
  lemma PrefixFree(counts: seq<byte>, p: nat, q: nat)
    requires Kraft(counts) && p < Total(counts, 16) && q < Total(counts, 16) && p != q
    ensures !(Canonical(counts)[p].Word() <= Canonical(counts)[q].Word())
  {
    CanonicalFits(counts, p);
    CanonicalFits(counts, q);
    if p < q {
      CanonicalOrdered(counts, p, q);
    } else {
      CanonicalOrdered(counts, q, p);
    }
    var a, b := Canonical(counts)[p], Canonical(counts)[q];
    NotPrefix(a.value, a.len, b.value, b.len);
  }

  /** Ordered code values of ordered lengths are not prefixes of each other. */
  lemma NotPrefix(v: nat, m: nat, w: nat, n: nat)
    requires v < Pow2(m) && w < Pow2(n)
    requires (m <= n && (v + 1) * Pow2(n - m) <= w) || (n <= m && (w + 1) * Pow2(m - n) <= v)
    ensures !(BitsOf(v, m) <= BitsOf(w, n))
  {
    hide *;
    Pow2Zero();
    if BitsOf(v, m) <= BitsOf(w, n) {
      PrefixValue(v, m, w, n);
    }
  }

  // ---------- the encoder's construction ----------

  /** `bits` as the source passes it: a table indexed from 1, with at most 256 codes in all. */
  ghost predicate EncoderCounts(bits: seq<byte>) {
    |bits| == 17 && Kraft(bits[1..]) && Total(bits[1..], 16) <= 256
  }

  /**
   `compute_huffman_table`, split at its three phases; its static work arrays hold 257 entries.
   */
  method ComputeHuffmanTable(codes: array<nat>, codeSizes: array<nat>, bits: seq<byte>, val: seq<byte>)
    requires codes.Length == 256 && codeSizes.Length == 256 && codes != codeSizes
    requires EncoderCounts(bits) && Total(bits[1..], 16) <= |val|
    requires forall i, j :: 0 <= i < j < Total(bits[1..], 16) ==> val[i] != val[j]
    modifies codes, codeSizes
    ensures forall k :: 0 <= k < Total(bits[1..], 16) ==>
                          && codes[val[k]] == Canonical(bits[1..])[k].value
                          && codeSizes[val[k]] == Canonical(bits[1..])[k].len
    ensures forall s: byte :: s !in val[..Total(bits[1..], 16)] ==> codes[s] == 0 && codeSizes[s] == 0
  {
    ghost var canon := Canonical(bits[1..]);
    var huffSize := new nat[257];
    var huffCode := new nat[257];
    var lastP := FillSizes(huffSize, bits);
    AssignCodes(huffSize, huffCode, bits[1..]);

    for s := 0 to 256
      invariant forall k :: 0 <= k < lastP ==> huffSize[k] == canon[k].len && huffCode[k] == canon[k].value
      invariant forall t :: 0 <= t < s ==> codes[t] == 0 && codeSizes[t] == 0
    {
      codes[s], codeSizes[s] := 0, 0;
    }
    for p := 0 to lastP
      invariant forall k :: 0 <= k < lastP ==> huffSize[k] == canon[k].len && huffCode[k] == canon[k].value
      invariant forall k :: 0 <= k < p ==> codes[val[k]] == canon[k].value && codeSizes[val[k]] == canon[k].len
      invariant forall s: byte :: s !in val[..p] ==> codes[s] == 0 && codeSizes[s] == 0
    {
      codes[val[p]] := huffCode[p];
      codeSizes[val[p]] := huffSize[p];
      assert val[..p + 1] == val[..p] + [val[p]];
    }
  }

  /** The code lengths, in order, with a zero sentinel. */
  method FillSizes(huffSize: array<nat>, bits: seq<byte>) returns (p: nat)
    requires huffSize.Length == 257 && EncoderCounts(bits)
    modifies huffSize
    ensures p == Total(bits[1..], 16)
    ensures forall k :: 0 <= k < p ==> huffSize[k] == Canonical(bits[1..])[k].len
    ensures huffSize[p] == 0
  {
    ghost var counts := bits[1..];
    p := 0;
    for l := 1 to 17
      invariant p == Total(counts, l - 1) <= Total(counts, 16)
      invariant forall k :: 0 <= k < p ==> huffSize[k] == Canonical(counts)[k].len
    {
      TotalMonotone(counts, l, 16);
      for i := 0 to bits[l]
        invariant p == Total(counts, l - 1) + i
        invariant forall k :: 0 <= k < p ==> huffSize[k] == Canonical(counts)[k].len
      {
        CodesAt(counts, 16, l, i);
        huffSize[p] := l;
        p := p + 1;
      }
    }
    huffSize[p] := 0;
  }

  /** The nested loops that run through the lengths; both terminate. */
  method AssignCodes(huffSize: array<nat>, huffCode: array<nat>, ghost counts: seq<byte>)
    requires huffSize.Length == 257 && huffCode.Length == 257 && huffSize != huffCode
    requires Kraft(counts) && Total(counts, 16) <= 256
    requires forall k :: 0 <= k < Total(counts, 16) ==> huffSize[k] == Canonical(counts)[k].len
    requires huffSize[Total(counts, 16)] == 0
    modifies huffCode
    ensures forall k :: 0 <= k < Total(counts, 16) ==> huffCode[k] == Canonical(counts)[k].value
  {
    var p, code, si := 0, 0, huffSize[0];
    ghost var total := Total(counts, 16);
    if total > 0 {
      FirstLength(counts);
    }
    while huffSize[p] != 0
      invariant 0 <= p <= total
      invariant total == 0 ==> si == 0
      invariant total > 0 ==> 1 <= si <= 17 && p == Total(counts, si - 1) && code == FirstCode(counts, si)
      invariant forall k :: 0 <= k < p ==> huffCode[k] == Canonical(counts)[k].value
      decreases 17 - si
    {
      TotalMonotone(counts, si, 16);
      while huffSize[p] == si
        invariant Total(counts, si - 1) <= p <= Total(counts, si)
        invariant code == FirstCode(counts, si) + (p - Total(counts, si - 1))
        invariant forall k :: 0 <= k < p ==> huffCode[k] == Canonical(counts)[k].value
        decreases total - p
      {
        InLength(counts, p, si);
        huffCode[p] := code;
        code := code + 1;
        p := p + 1;
      }
      InLength(counts, p, si);
      code := 2 * code;
      si := si + 1;
    }
    InLengthAll(counts, p);
  }

  /** The first code word has the shortest used length, and value 0. */
  lemma FirstLength(counts: seq<byte>)
    requires |counts| == 16 && Total(counts, 16) > 0
    ensures var l := Canonical(counts)[0].len; 1 <= l <= 16 && Total(counts, l - 1) == 0 && FirstCode(counts, l) == 0
  {
    var l, j := CodesFind(counts, 16, 0);
    FirstCodeZero(counts, l);
  }

  lemma {:induction false} FirstCodeZero(counts: seq<byte>, l: nat)
    requires 1 <= l <= |counts| && Total(counts, l - 1) == 0
    ensures FirstCode(counts, l) == 0
  {
    if l > 1 {
      FirstCodeZero(counts, l - 1);
    }
  }

  /** At or past the start of the codes of length `l`, the length is `l` exactly while they last. */
  lemma InLength(counts: seq<byte>, k: nat, l: nat)
    requires |counts| == 16 && 1 <= l <= 16 && Total(counts, l - 1) <= k <= Total(counts, 16)
    ensures Total(counts, l) <= Total(counts, 16)
    ensures k < Total(counts, 16) ==>
              (Canonical(counts)[k].len == l <==> k < Total(counts, l))
              && (k < Total(counts, l) ==> Canonical(counts)[k].value == FirstCode(counts, l) + (k - Total(counts, l - 1)))
  {
    TotalMonotone(counts, l, 16);
    if k < Total(counts, l) {
      CodesAt(counts, 16, l, k - Total(counts, l - 1));
    } else if k < Total(counts, 16) {
      var m, j := CodesFind(counts, 16, k);
      if m == l {
        assert false;
      }
    }
  }

  /** Only the sentinel stops the outer loop. */
  lemma InLengthAll(counts: seq<byte>, k: nat)
    requires Kraft(counts) && k <= Total(counts, 16)
    ensures k < Total(counts, 16) ==> Canonical(counts)[k].len != 0
  {
    if k < Total(counts, 16) {
      CanonicalFits(counts, k);
    }
  }
}
