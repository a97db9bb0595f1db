/**
 The prefetching builds of the entropy reader against the bit-serial one, over whole sequences of calls.  Each
 build's calls have the effect their contracts in `Decoder.Jdec` give them; here those effects are run side by
 side on a scan that ends at a marker.
 */
module ReaderRefinement {
  import opened Bits
  import opened Huffman
  import opened HuffmanSearch
  import opened Decoder

  /** One call on the reader: `huffext` with a table, or `bitext` of 1 to 16 bits. */
  datatype Call = Symbol(t: Table) | Value(n: nat) {
    ghost predicate Ok() {
      match this
      case Symbol(t) => t.Valid()
      case Value(n) => 1 <= n <= 16
    }
  }

  ghost predicate CallsOk(calls: seq<Call>) {
    forall i :: 0 <= i < |calls| ==> calls[i].Ok()
  }

  /** What one call returns and how many bits it uses; a failed call has no answer. */
  datatype Answer = NoAnswer | Answer(value: int, used: nat)

  /** The answer of a call that sees `bits`. */
  ghost function Ask(c: Call, bits: seq<bool>): Answer
    requires c.Ok()
  {
    match c
    case Symbol(t) => (match HuffDecode(t, bits) case Miss => NoAnswer case Hit(s, len) => Answer(s, len))
    case Value(n) => if n <= |bits| then Answer(ValueOf(bits[..n]), n) else NoAnswer
  }

  /** A run of calls: the values returned and the bits used in all, or stuck at a failed call. */
  datatype Run = Stuck | Run(values: seq<int>, used: nat)

  function Prepend(a: Answer, r: Run): Run
    requires a.Answer?
  {
    match r
    case Stuck => Stuck
    case Run(vs, n) => Run([a.value] + vs, a.used + n)
  }

  /** Build 0 sees the data bits and nothing after them. */
  ghost function BitSerial(calls: seq<Call>, data: seq<bool>): Run
    requires CallsOk(calls)
  {
    if |calls| == 0 then Run([], 0) else
      var a := Ask(calls[0], data);
      if a.NoAnswer? then Stuck else Prepend(a, BitSerial(calls[1..], Dropped(data, a.used)))
  }

  /** Builds 1 and 2 see the data bits continued by ones. */
  ghost function Prefetching(calls: seq<Call>, data: seq<bool>): Run
    requires CallsOk(calls)
  {
    if |calls| == 0 then Run([], 0) else
      var a := Ask(calls[0], Padded(data));
      if a.NoAnswer? then Stuck else Prepend(a, Prefetching(calls[1..], Dropped(data, a.used)))
  }

  lemma {:induction false} HitLength(t: Table, bits: seq<bool>, l: nat)
    requires |t.counts| == 16 && |t.vals| == Total(t.counts, 16) && 1 <= l <= 17
    ensures Search(t, bits, l).Hit? ==> l <= Search(t, bits, l).len <= |bits|
    decreases 17 - l
  {
    if l <= 16 && l <= |bits| {
      HitLength(t, bits, l + 1);
    }
  }

  /** A call within the data answers alike in every build; build 0 answers nothing else. */
  lemma AskPadded(c: Call, data: seq<bool>)
    requires c.Ok()
    ensures var p := Ask(c, Padded(data)); Ask(c, data) == if p.Answer? && p.used <= |data| then p else NoAnswer
  {
    match c
    case Symbol(t) =>
      hide Search, ValueOf;
      SearchExtend(t, data, Ones(16), 1);
      HitLength(t, data, 1);
      if |data| < 16 {
        HitLength(t, data + Ones(16), |data| + 1);
      }
    case Value(n) =>
      assert n <= |data| ==> Padded(data)[..n] == data[..n];
  }

  lemma RunSteps(calls: seq<Call>, data: seq<bool>)
    requires CallsOk(calls) && |calls| > 0
    ensures calls[0].Ok() && CallsOk(calls[1..])
    ensures BitSerial(calls, data)
         == (var a := Ask(calls[0], data);
             if a.NoAnswer? then Stuck else Prepend(a, BitSerial(calls[1..], Dropped(data, a.used))))
    ensures Prefetching(calls, data)
         == (var a := Ask(calls[0], Padded(data));
             if a.NoAnswer? then Stuck else Prepend(a, Prefetching(calls[1..], Dropped(data, a.used))))
  {
    hide Ask;
  }

  /**
   Refinement, exactly: the bit-serial reader completes a sequence of calls if and only if the prefetching one
   does within the data bits, and then they return the same values.
   */
  lemma {:induction false} PrefetchingRefinesBitSerial(calls: seq<Call>, data: seq<bool>)
    requires CallsOk(calls)
    ensures var p := Prefetching(calls, data);
            BitSerial(calls, data) == if p.Run? && p.used <= |data| then p else Stuck
    decreases |calls|
  {
    if |calls| > 0 {
      hide BitSerial, Prefetching, Ask;
      RunSteps(calls, data);
      AskPadded(calls[0], data);
      var a := Ask(calls[0], Padded(data));
      if a.Answer? {
        PrefetchingRefinesBitSerial(calls[1..], Dropped(data, a.used));
      }
    }
  }

  // ---------- the reader itself ----------

  /** A request to a reader: `huffext(jd, id, cls)` or `bitext(jd, nbit)`. */
  datatype Request = Huff(id: nat, cls: nat) | Bits(nbit: nat) {
    predicate Ok() {
      match this
      case Huff(id, cls) => id < 2 && cls < 2
      case Bits(nbit) => 1 <= nbit <= 16
    }
  }

  ghost function CallOf(jd: Jdec, r: Request): (c: Call)
    requires jd.TablesOk() && r.Ok()
    reads jd`tables
    ensures c.Ok()
  {
    match r
    case Huff(id, cls) =>
      jd.CoderFacts(id);
      if cls == 0 then Symbol(jd.tables[id][0].Spec()) else Symbol(jd.tables[id][1].Spec())
    case Bits(nbit) => Value(nbit)
  }

  ghost function CallsOf(jd: Jdec, rs: seq<Request>): (cs: seq<Call>)
    requires jd.TablesOk() && forall i :: 0 <= i < |rs| ==> rs[i].Ok()
    reads jd`tables
    ensures CallsOk(cs) && |cs| == |rs|
  {
    if |rs| == 0 then [] else [CallOf(jd, rs[0])] + CallsOf(jd, rs[1..])
  }

  /** The run of a build on the unread data. */
  ghost function RunOf(fast: nat, calls: seq<Call>, data: seq<bool>): Run
    requires CallsOk(calls)
  {
    if fast == 0 then BitSerial(calls, data) else Prefetching(calls, data)
  }

  lemma RunOfSteps(fast: nat, c: Call, calls: seq<Call>, data: seq<bool>)
    requires c.Ok() && CallsOk(calls)
    ensures CallsOk([c] + calls)
    ensures RunOf(fast, [c] + calls, data)
         == (var a := Ask(c, if fast == 0 then data else Padded(data));
             if a.NoAnswer? then Stuck else Prepend(a, RunOf(fast, calls, Dropped(data, a.used))))
    ensures RunOf(fast, [], data) == Run([], 0)
  {
    hide Ask, BitSerial, Prefetching;
    assert ([c] + calls)[1..] == calls;
    NoCalls(data);
    RunSteps([c] + calls, data);
  }

  lemma NoCalls(data: seq<bool>)
    ensures BitSerial([], data) == Run([], 0) && Prefetching([], data) == Run([], 0)
  {
  }

  /** One request, answered as `Ask` says. */
  method Answered(jd: Jdec, r: Request) returns (ok: bool, v: int)
    requires jd.Valid() && jd.TablesOk() && r.Ok() && (jd.FAST > 0 ==> jd.End.Marker?)
    modifies jd`read, jd`dptr, jd`dctr, jd`dbit, jd.inbuf, jd`Data, jd`marker, jd`wreg, jd`Held
    ensures var a := Ask(CallOf(jd, r), if jd.FAST == 0 then old(jd.Data) else Padded(old(jd.Data)));
            if a.NoAnswer? then !ok else ok && v == a.value && jd.Valid() && jd.Data == Dropped(old(jd.Data), a.used)
  {
    hide Jdec.Valid, HuffDecode, ValueOf, Padded;
    match r {
      case Huff(id, cls) =>
        v := jd.Huffext(id, cls);
      case Bits(nbit) =>
        PaddedLength(jd.Data, nbit);
        v := jd.Bitext(nbit);
    }
    ok := v >= 0;
  }

  lemma PaddedLength(data: seq<bool>, n: nat)
    requires n <= 16
    ensures n <= |Padded(data)|
  {
  }

  /** Any sequence of requests to any build. */
  method Serve(jd: Jdec, rs: seq<Request>) returns (ok: bool, values: seq<int>)
    requires jd.Valid() && jd.TablesOk() && (forall i :: 0 <= i < |rs| ==> rs[i].Ok()) && (jd.FAST > 0 ==> jd.End.Marker?)
    modifies jd`read, jd`dptr, jd`dctr, jd`dbit, jd.inbuf, jd`Data, jd`marker, jd`wreg, jd`Held
    ensures var run := RunOf(jd.FAST, CallsOf(jd, rs), old(jd.Data));
            if run.Stuck? then !ok else ok && values == run.values
    decreases |rs|
  {
    hide Jdec.Valid, Jdec.TablesOk, Ask, RunOf, CallOf;
    if |rs| == 0 {
      RunOfNone(jd.FAST, jd.Data);
      return true, [];
    }
    RunOfSteps(jd.FAST, CallOf(jd, rs[0]), CallsOf(jd, rs[1..]), jd.Data);
    var v, more;
    ok, v := Answered(jd, rs[0]);
    values := [];
    if ok {
      ok, more := Serve(jd, rs[1..]);
      values := [v] + more;
    }
  }

  lemma RunOfNone(fast: nat, data: seq<bool>)
    ensures RunOf(fast, [], data) == Run([], 0)
  {
  }

  /**
   Two builds of the decompressor on the same unread data, with the same code tables: whatever is asked of them,
   if the bit-serial build can answer it all then so can the prefetching one, with the same values.
   */
  method BuildsAgree(serial: Jdec, fast: Jdec, rs: seq<Request>) returns (ok0: bool, values0: seq<int>, ok1: bool, values1: seq<int>)
    requires serial != fast && serial.inbuf != fast.inbuf && serial.FAST == 0 && fast.FAST > 0
    requires serial.Valid() && fast.Valid() && serial.TablesOk() && fast.TablesOk() && forall i :: 0 <= i < |rs| ==> rs[i].Ok()
    requires serial.Data == fast.Data && fast.End.Marker? && CallsOf(serial, rs) == CallsOf(fast, rs)
    modifies serial`read, serial`dptr, serial`dctr, serial`dbit, serial.inbuf, serial`Data, serial`marker, serial`wreg, serial`Held
    modifies fast`read, fast`dptr, fast`dctr, fast`dbit, fast.inbuf, fast`Data, fast`marker, fast`wreg, fast`Held
    ensures ok0 ==> ok1 && values0 == values1
  {
    hide Jdec.Valid, Jdec.TablesOk, BitSerial, Prefetching, CallsOf;
    ghost var calls, data := CallsOf(serial, rs), serial.Data;
    PrefetchingRefinesBitSerial(calls, data);
    ok0, values0 := Serve(serial, rs);
    ok1, values1 := Serve(fast, rs);
  }
}
