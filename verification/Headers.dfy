/**
 The marker segments of an encoded image (ITU-T T.81 Annex B), as bytes.
 */
module Headers {
  import opened Bits
  import opened Huffman
  import opened StandardTables
  import Quantizer

  const M_SOF0: byte := 0xC0
  const M_DHT: byte := 0xC4
  const M_SOI: byte := 0xD8
  const M_SOS: byte := 0xDA
  const M_DQT: byte := 0xDB
  const M_APP0: byte := 0xE0

  /** What the header of an image says: its size, components, luma sampling factors and quantiser tables. */
  datatype Image = Image(width: nat, height: nat, ncomp: nat, h: nat, v: nat, quant: seq<seq<int>>) {
    /** The forms `jpg_open` produces. */
    ghost predicate Ok() {
      && width >= 1 && height >= 1
      && (ncomp, h, v) in {(1, 1, 1), (3, 1, 1), (3, 2, 1), (3, 2, 2)}
      && |quant| == 2 && Quantizer.IsQuantTable(quant[0]) && Quantizer.IsQuantTable(quant[1])
    }
  }

  /** `emit_word`: the low sixteen bits, high byte first. */
  function Word(i: nat): (w: seq<byte>)
    ensures |w| == 2
  {
    [i / 256 % 256, i % 256]
  }

  datatype MarkerSegment = MarkerSegment(marker: byte, payload: seq<byte>) {
    /** Marker, length (which counts itself) and payload. */
    function Bytes(): seq<byte> {
      [0xFF, marker] + Word(|payload| + 2) + payload
    }
  }

  function Flatten(segs: seq<MarkerSegment>): seq<byte> {
    if |segs| == 0 then [] else segs[0].Bytes() + Flatten(segs[1..])
  }

  function App0(): MarkerSegment {
    MarkerSegment(M_APP0, [0x4A, 0x46, 0x49, 0x46, 0, 1, 1, 0, 0, 1, 0, 1, 0, 0])
  }

  /** Table values as bytes (`static_cast<uint8>`). */
  function AsBytes(q: seq<int>): (r: seq<byte>)
    ensures |r| == |q| && forall i :: 0 <= i < |q| ==> r[i] == q[i] % 256
  {
    seq(|q|, i requires 0 <= i < |q| => q[i] % 256)
  }

  function Dqt(i: byte, q: seq<int>): MarkerSegment {
    MarkerSegment(M_DQT, [i] + AsBytes(q))
  }

  /** Component identifier, sampling factors and quantiser table. */
  function SofComponent(i: nat, h: nat, v: nat): (r: seq<byte>)
    requires i < 3 && h <= 2 && v <= 2
    ensures |r| == 3
  {
    if i == 0 then [1, h * 16 + v, 0] else [i + 1, 0x11, 1]
  }

  function SofComponents(n: nat, h: nat, v: nat): (r: seq<byte>)
    requires n <= 3 && h <= 2 && v <= 2
    ensures |r| == 3 * n
  {
    if n == 0 then [] else SofComponents(n - 1, h, v) + SofComponent(n - 1, h, v)
  }

  function Sof(p: Image): MarkerSegment
    requires p.ncomp <= 3 && p.h <= 2 && p.v <= 2
  {
    MarkerSegment(M_SOF0, [8] + Word(p.height) + Word(p.width) + [p.ncomp] + SofComponents(p.ncomp, p.h, p.v))
  }

  function Dht(t: Table, index: byte): MarkerSegment {
    MarkerSegment(M_DHT, [index] + t.counts + t.vals)
  }

  function SosComponents(n: nat): (r: seq<byte>)
    requires n <= 3
    ensures |r| == 2 * n
  {
    if n == 0 then [] else SosComponents(n - 1) + [n, if n == 1 then 0x00 else 0x11]
  }

  function Sos(ncomp: nat): MarkerSegment
    requires ncomp <= 3
  {
    MarkerSegment(M_SOS, [ncomp] + SosComponents(ncomp) + [0, 63, 0])
  }

  function Tables(chroma: bool): seq<MarkerSegment> {
    [Dht(DcTable(chroma), if chroma then 1 else 0), Dht(AcTable(chroma), if chroma then 0x11 else 0x10)]
  }

  function QuantSegments(ncomp: nat, quant: seq<seq<int>>): seq<MarkerSegment>
    requires |quant| == 2
  {
    [Dqt(0, quant[0])] + if ncomp == 3 then [Dqt(1, quant[1])] else []
  }

  function TableSegments(ncomp: nat): seq<MarkerSegment> {
    Tables(false) + if ncomp == 3 then Tables(true) else []
  }

  /** The segments in the order `jpg_open` emits them. */
  function Segments(p: Image): seq<MarkerSegment>
    requires p.ncomp <= 3 && p.h <= 2 && p.v <= 2 && |p.quant| == 2
  {
    [App0()] + (QuantSegments(p.ncomp, p.quant) + ([Sof(p)] + (TableSegments(p.ncomp) + [Sos(p.ncomp)])))
  }

  /** Everything before the scan. */
  function Header(p: Image): seq<byte>
    requires p.ncomp <= 3 && p.h <= 2 && p.v <= 2 && |p.quant| == 2
  {
    [0xFF, M_SOI] + Flatten(Segments(p))
  }

  lemma FlattenMore(s: MarkerSegment, segs: seq<MarkerSegment>)
    ensures Flatten([]) == [] && Flatten([s] + segs) == s.Bytes() + Flatten(segs)
  {
    hide MarkerSegment.Bytes;
    assert ([s] + segs)[1..] == segs;
  }

  lemma {:induction false} FlattenConcat(a: seq<MarkerSegment>, b: seq<MarkerSegment>)
    ensures Flatten(a + b) == Flatten(a) + Flatten(b)
  {
    hide *;
    if |a| == 0 {
      assert a == [] && a + b == b;
      FlattenMore(App0(), b);
      assert [] + Flatten(b) == Flatten(b);
    } else {
      FlattenConcat(a[1..], b);
      assert [a[0]] + a[1..] == a && [a[0]] + (a[1..] + b) == a + b;
      FlattenMore(a[0], a[1..]);
      FlattenMore(a[0], a[1..] + b);
      Associate(a[0].Bytes(), Flatten(a[1..]), Flatten(b));
    }
  }

  lemma FlattenOne(s: MarkerSegment)
    ensures Flatten([s]) == s.Bytes()
  {
    hide MarkerSegment.Bytes;
    assert Flatten([s][1..]) == [];
  }

  lemma FlattenTwo(before: seq<byte>, a: MarkerSegment, b: MarkerSegment)
    ensures (before + a.Bytes()) + b.Bytes() == before + Flatten([a, b])
  {
    hide *;
    FlattenOne(b);
    FlattenMore(a, [b]);
    assert [a] + [b] == [a, b];
    Associate(before, a.Bytes(), b.Bytes());
  }

  lemma HeaderShape(p: Image)
    requires p.Ok()
    ensures p.ncomp <= 3 && p.h <= 2 && p.v <= 2 && |p.quant| == 2
    ensures Header(p) == [0xFF, M_SOI] + Flatten(Segments(p))
    ensures Segments(p) == [App0()] + (QuantSegments(p.ncomp, p.quant) + ([Sof(p)] + (TableSegments(p.ncomp) + [Sos(p.ncomp)])))
  {
    hide Flatten, QuantSegments, TableSegments, Sof, Sos;
  }

  /** The header, piece by piece as it is written. */
  lemma HeaderParts(before: seq<byte>, p: Image)
    requires p.Ok()
    ensures p.ncomp <= 3 && p.h <= 2 && p.v <= 2 && |p.quant| == 2
    ensures before + [0xFF, M_SOI] + App0().Bytes() + Flatten(QuantSegments(p.ncomp, p.quant)) + Sof(p).Bytes()
            + Flatten(TableSegments(p.ncomp)) + Sos(p.ncomp).Bytes()
         == before + Header(p)
  {
    hide *;
    HeaderShape(p);
    var q, t, sof, sos := QuantSegments(p.ncomp, p.quant), TableSegments(p.ncomp), Sof(p), Sos(p.ncomp);
    FlattenOne(sos);
    FlattenConcat(t, [sos]);
    FlattenMore(sof, t + [sos]);
    FlattenConcat(q, [sof] + (t + [sos]));
    FlattenMore(App0(), q + ([sof] + (t + [sos])));
    Regroup(before, [0xFF, M_SOI], App0().Bytes(), Flatten(q), sof.Bytes(), Flatten(t), sos.Bytes());
  }

  lemma Regroup(a: seq<byte>, b: seq<byte>, c: seq<byte>, d: seq<byte>, e: seq<byte>, f: seq<byte>, g: seq<byte>)
    ensures a + b + c + d + e + f + g == a + (b + (c + (d + (e + (f + g)))))
  {
    assert e + f + g == e + (f + g);
    assert d + (e + f + g) == d + e + f + g;
    assert a + b + c + (d + e + f + g) == a + (b + (c + (d + e + f + g)));
    assert a + b + c + (d + e + f + g) == a + b + c + d + e + f + g;
  }
}
