/**
 Sending a message in fragments (`esp_websocket_client_send_with_exact_opcode`; RFC 6455 section 5.4).
 */
module WsSend {
  import opened Bits

  const FIN: byte := 0x80

  /** One raw frame: the opcode byte with its FIN bit, and the payload. */
  datatype Frame = Frame(opcode: byte, payload: seq<byte>) {
    predicate Fin() {
      opcode >= FIN
    }

    /** The opcode proper; 0 is a continuation. */
    function Op(): byte {
      opcode % FIN
    }
  }

  function ClearFin(opcode: byte): byte {
    opcode % FIN
  }

  function SetFin(opcode: byte): byte {
    opcode % FIN + FIN
  }

  /** The bytes of the next fragment when `left` remain. */
  function Need(left: nat, bufferSize: nat): nat {
    if left > bufferSize then bufferSize else left
  }

  /** The opcode byte of the next frame: FIN never on a full buffer with more to come, and otherwise if requested. */
  function NextOpcode(opcode: byte, fin: bool, left: nat, bufferSize: nat): byte {
    if left > bufferSize then ClearFin(opcode) else if fin then SetFin(opcode) else opcode
  }

  /** What the transport answers to a fragment of `need` bytes: scripted, never more than it was given, in full when not scripted. */
  function Written(script: seq<int>, need: nat): int {
    if |script| == 0 then need else if script[0] > need then need else script[0]
  }

  function Rest(script: seq<int>): seq<int> {
    if |script| == 0 then [] else script[1..]
  }

  /** A negative answer is an error, and so is writing nothing of something. */
  predicate Failed(wlen: int, need: nat) {
    wlen < 0 || (wlen == 0 && need != 0)
  }

  /** The frames sent for what is left of a message: after a short write the rest goes out again as new fragments. */
  function Frames(data: seq<byte>, opcode: byte, fin: bool, bufferSize: nat, script: seq<int>): (fs: seq<Frame>)
    requires bufferSize > 0
    decreases |data|, opcode
  {
    if |data| == 0 && opcode == 0 then [] else
      var need := Need(|data|, bufferSize);
      var f := Frame(NextOpcode(opcode, fin, |data|, bufferSize), data[..need]);
      var wlen := Written(script, need);
      if Failed(wlen, need) then [f] else [f] + Frames(data[wlen..], 0, fin, bufferSize, Rest(script))
  }

  /** What the call returns: the number of bytes sent, or the transport's error. */
  function Result(sent: nat, data: seq<byte>, opcode: byte, bufferSize: nat, script: seq<int>): int
    requires bufferSize > 0
    decreases |data|, opcode
  {
    if |data| == 0 && opcode == 0 then sent else
      var need := Need(|data|, bufferSize);
      var wlen := Written(script, need);
      if Failed(wlen, need) then wlen else Result(sent + wlen, data[wlen..], 0, bufferSize, Rest(script))
  }

  /** The transport: the frames it was given, and how it answers. */
  class Transport {
    var sent: seq<Frame>
    var script: seq<int>

    constructor (answers: seq<int>)
      ensures sent == [] && script == answers
    {
      sent, script := [], answers;
    }

    method SendRaw(opcode: byte, payload: seq<byte>) returns (wlen: int)
      modifies this
      ensures sent == old(sent) + [Frame(opcode, payload)]
      ensures wlen == Written(old(script), |payload|) && script == Rest(old(script))
    {
      sent := sent + [Frame(opcode, payload)];
      wlen := Written(script, |payload|);
      script := Rest(script);
    }
  }

  /**
   `esp_websocket_client_send_with_exact_opcode` between taking and giving back the lock; an error also aborts
   the connection.  The loop ends for every message and every behaviour of the transport.
   */
  method SendWithExactOpcode(t: Transport, opcode0: byte, data: seq<byte>, bufferSize: nat) returns (ret: int)
    requires bufferSize > 0
    modifies t
    ensures t.sent == old(t.sent) + Frames(data, opcode0, opcode0 >= FIN, bufferSize, old(t.script))
    ensures ret == Result(0, data, opcode0, bufferSize, old(t.script))
  {
    var opcode: byte := opcode0;
    var containedFin := opcode >= FIN;
    var len := |data|;
    var widx, needWrite := 0, len;
    while widx < len || opcode != 0
      invariant 0 <= widx <= len && needWrite == len - widx
      invariant t.sent + Frames(data[widx..], opcode, containedFin, bufferSize, t.script)
             == old(t.sent) + Frames(data, opcode0, containedFin, bufferSize, old(t.script))
      invariant Result(widx, data[widx..], opcode, bufferSize, t.script) == Result(0, data, opcode0, bufferSize, old(t.script))
      decreases len - widx, opcode
    {
      ghost var left, script := data[widx..], t.script;
      if needWrite > bufferSize {
        needWrite := bufferSize;
        opcode := ClearFin(opcode);
      } else if containedFin {
        opcode := SetFin(opcode);
      }
      ghost var before := t.sent;
      var fragment := data[widx..widx + needWrite];
      assert fragment == left[..needWrite];
      var wlen := t.SendRaw(opcode, fragment);
      if wlen < 0 || (wlen == 0 && needWrite != 0) {
        return wlen;
      }
      assert left[wlen..] == data[widx + wlen..];
      Regroup(before, [Frame(opcode, fragment)], Frames(left[wlen..], 0, containedFin, bufferSize, Rest(script)));
      opcode := 0;
      widx := widx + wlen;
      needWrite := len - widx;
    }
    ret := widx;
  }

  lemma Regroup(a: seq<Frame>, b: seq<Frame>, c: seq<Frame>)
    ensures (a + b) + c == a + (b + c)
  {
  }

  // ---------- what the frames are ----------

  function Payload(fs: seq<Frame>): seq<byte> {
    if |fs| == 0 then [] else fs[0].payload + Payload(fs[1..])
  }

  /** A fragmented message as RFC 6455 wants it: the opcode first, then continuations, FIN on the last alone and only if asked for. */
  ghost predicate WellFragmented(fs: seq<Frame>, opcode: byte, fin: bool) {
    && |fs| > 0 && fs[0].Op() == opcode % FIN
    && (forall i :: 1 <= i < |fs| ==> fs[i].Op() == 0)
    && (forall i :: 0 <= i < |fs| - 1 ==> !fs[i].Fin())
    && fs[|fs| - 1].Fin() == fin
  }

  /**
   Fragmentation: when every raw send writes its whole fragment, the frames are a well-formed fragmented
   message with exactly the data, in fragments that fit the buffer; without data and opcode nothing is sent.
   */
  lemma Fragmentation(data: seq<byte>, opcode: byte, fin: bool, bufferSize: nat)
    requires bufferSize > 0 && (opcode >= FIN ==> fin)
    ensures var fs := Frames(data, opcode, fin, bufferSize, []);
            && Payload(fs) == data
            && (|fs| == 0 <==> |data| == 0 && opcode == 0)
            && (|fs| > 0 ==> WellFragmented(fs, opcode, fin))
            && (forall i :: 0 <= i < |fs| ==> |fs[i].payload| <= bufferSize)
            && Result(0, data, opcode, bufferSize, []) == |data|
  {
    hide *;
    FragmentsForm(data, opcode, fin, bufferSize);
    FragmentsCarry(data, opcode, fin, bufferSize);
  }

  lemma {:induction false} FragmentsForm(data: seq<byte>, opcode: byte, fin: bool, bufferSize: nat)
    requires bufferSize > 0 && (opcode >= FIN ==> fin)
    ensures var fs := Frames(data, opcode, fin, bufferSize, []);
            (|fs| == 0 <==> |data| == 0 && opcode == 0) && (|fs| > 0 ==> WellFragmented(fs, opcode, fin))
    decreases |data|, opcode
  {
    hide Frames, WellFragmented, Payload, Result;
    if |data| > 0 || opcode != 0 {
      var need := Need(|data|, bufferSize);
      FullWrite(data, opcode, fin, bufferSize);
      FragmentsForm(data[need..], 0, fin, bufferSize);
      OneMore(Frame(NextOpcode(opcode, fin, |data|, bufferSize), data[..need]), Frames(data[need..], 0, fin, bufferSize, []), opcode, fin);
    } else {
      NothingSent(fin, bufferSize);
    }
  }

  lemma NothingSent(fin: bool, bufferSize: nat)
    requires bufferSize > 0
    ensures Frames([], 0, fin, bufferSize, []) == [] && Payload([]) == [] && Result(0, [], 0, bufferSize, []) == 0
  {
  }

  lemma {:induction false} FragmentsCarry(data: seq<byte>, opcode: byte, fin: bool, bufferSize: nat)
    requires bufferSize > 0 && (opcode >= FIN ==> fin)
    ensures var fs := Frames(data, opcode, fin, bufferSize, []);
            && Payload(fs) == data && Result(0, data, opcode, bufferSize, []) == |data|
            && forall i :: 0 <= i < |fs| ==> |fs[i].payload| <= bufferSize
    decreases |data|, opcode
  {
    hide Frames, Payload, Result, NextOpcode;
    if |data| > 0 || opcode != 0 {
      var need := Need(|data|, bufferSize);
      FullWrite(data, opcode, fin, bufferSize);
      FragmentsCarry(data[need..], 0, fin, bufferSize);
      MorePayload(Frame(NextOpcode(opcode, fin, |data|, bufferSize), data[..need]), Frames(data[need..], 0, fin, bufferSize, []));
      assert data[..need] + data[need..] == data;
      ResultShift(0, need, data[need..], 0, bufferSize, []);
    } else {
      NothingSent(fin, bufferSize);
    }
  }

  lemma FullWrite(data: seq<byte>, opcode: byte, fin: bool, bufferSize: nat)
    requires bufferSize > 0 && (|data| > 0 || opcode != 0)
    ensures var need := Need(|data|, bufferSize);
            && Frames(data, opcode, fin, bufferSize, [])
               == [Frame(NextOpcode(opcode, fin, |data|, bufferSize), data[..need])] + Frames(data[need..], 0, fin, bufferSize, [])
            && Result(0, data, opcode, bufferSize, []) == Result(need, data[need..], 0, bufferSize, [])
  {
  }

  /** A first frame in front of the continuations. */
  lemma OneMore(f: Frame, more: seq<Frame>, opcode: byte, fin: bool)
    requires f.Op() == opcode % FIN
    requires if |more| == 0 then f.Fin() == fin else !f.Fin() && WellFragmented(more, 0, fin)
    ensures WellFragmented([f] + more, opcode, fin)
  {
  }

  lemma MorePayload(f: Frame, more: seq<Frame>)
    ensures Payload([f] + more) == f.payload + Payload(more)
  {
    assert ([f] + more)[1..] == more;
  }

  lemma {:induction false} ResultShift(sent: nat, more: nat, data: seq<byte>, opcode: byte, bufferSize: nat, script: seq<int>)
    requires bufferSize > 0 && script == []
    ensures Result(sent + more, data, opcode, bufferSize, script) == Result(sent, data, opcode, bufferSize, script) + more
    decreases |data|, opcode
  {
    if |data| > 0 || opcode != 0 {
      var need := Need(|data|, bufferSize);
      ResultShift(sent + need, more, data[need..], 0, bufferSize, []);
    }
  }

  // ---------- short writes ----------

  /** Some fragment that held all the remaining data was written only in part. */
  predicate ShortFinal(data: seq<byte>, opcode: byte, bufferSize: nat, script: seq<int>)
    requires bufferSize > 0
    decreases |data|, opcode
  {
    if |data| == 0 && opcode == 0 then false else
      var need := Need(|data|, bufferSize);
      var wlen := Written(script, need);
      !Failed(wlen, need) && ((|data| <= bufferSize && wlen < need) || ShortFinal(data[wlen..], 0, bufferSize, Rest(script)))
  }

  ghost predicate FinOnlyLast(fs: seq<Frame>) {
    forall i :: 0 <= i < |fs| - 1 ==> !fs[i].Fin()
  }

  lemma FinOnlyLastMore(f: Frame, fs: seq<Frame>)
    ensures FinOnlyLast([f] + fs) <==> (|fs| > 0 ==> !f.Fin()) && FinOnlyLast(fs)
  {
    var all := [f] + fs;
    if FinOnlyLast(all) {
      assert |fs| > 0 ==> !all[0].Fin();
      forall i | 0 <= i < |fs| - 1 ensures !fs[i].Fin() {
        assert !all[i + 1].Fin();
      }
    } else if |fs| > 0 && !f.Fin() {
      var i :| 0 <= i < |all| - 1 && all[i].Fin();
      assert fs[i - 1].Fin();
    }
  }

  /**
   With a transport that may write short, FIN still marks the last frame alone exactly when no fragment that
   holds all the remaining data is written short: such a fragment already carried FIN, and what it left over
   follows in another frame.
   */
  lemma {:induction false} FinMarksLast(data: seq<byte>, opcode: byte, bufferSize: nat, script: seq<int>)
    requires bufferSize > 0
    ensures FinOnlyLast(Frames(data, opcode, true, bufferSize, script)) <==> !ShortFinal(data, opcode, bufferSize, script)
    decreases |data|, opcode
  {
    if |data| > 0 || opcode != 0 {
      var need := Need(|data|, bufferSize);
      var wlen := Written(script, need);
      if !Failed(wlen, need) {
        FinMarksLast(data[wlen..], 0, bufferSize, Rest(script));
        FinOnlyLastMore(Frame(NextOpcode(opcode, true, |data|, bufferSize), data[..need]),
                        Frames(data[wlen..], 0, true, bufferSize, Rest(script)));
      }
    }
  }

  // ---------- every transport ----------

  /** What the transport accepted of the frames, up to the first failure. */
  function Accepted(fs: seq<Frame>, script: seq<int>): seq<byte> {
    if |fs| == 0 || Failed(Written(script, |fs[0].payload|), |fs[0].payload|) then [] else
      fs[0].payload[..Written(script, |fs[0].payload|)] + Accepted(fs[1..], Rest(script))
  }

  /** No frame fails. */
  predicate AllWritten(fs: seq<Frame>, script: seq<int>) {
    |fs| == 0 || (!Failed(Written(script, |fs[0].payload|), |fs[0].payload|) && AllWritten(fs[1..], Rest(script)))
  }

  /** A message whatever the transport does: the opcode first, then continuations that hold something, in fragments that fit the buffer. */
  ghost predicate Continued(fs: seq<Frame>, opcode: byte, bufferSize: nat) {
    && (|fs| > 0 ==> fs[0].Op() == opcode % FIN)
    && (forall i :: 1 <= i < |fs| ==> fs[i].Op() == 0 && |fs[i].payload| > 0)
    && (forall i :: 0 <= i < |fs| ==> |fs[i].payload| <= bufferSize)
  }

  /**
   Every frame goes on with the data where the accepted part of the frames before it ends, up to the end or a
   full buffer; FIN is on those that reach the end, if asked for.
   */
  ghost predicate GoesOn(fs: seq<Frame>, data: seq<byte>, fin: bool, bufferSize: nat, script: seq<int>) {
    forall i :: 0 <= i < |fs| ==> GoesOnAt(fs, i, data, fin, bufferSize, script)
  }

  ghost predicate GoesOnAt(fs: seq<Frame>, i: nat, data: seq<byte>, fin: bool, bufferSize: nat, script: seq<int>)
    requires i < |fs|
  {
    var at := |Accepted(fs[..i], script)|;
    && at <= |data| && fs[i].payload == data[at..][..Need(|data| - at, bufferSize)]
    && fs[i].Fin() == (fin && |data| - at <= bufferSize)
  }

  /**
   Every behaviour of the transport: the first frame has the opcode and every later one is a continuation, each
   goes on where the accepted bytes end, and what is accepted is a prefix of the data: all of it when nothing
   fails, and then its length is returned; otherwise the failing answer is.
   */
  lemma EveryTransport(data: seq<byte>, opcode: byte, fin: bool, bufferSize: nat, script: seq<int>)
    requires bufferSize > 0 && (opcode >= FIN ==> fin)
    ensures var fs, ret := Frames(data, opcode, fin, bufferSize, script), Result(0, data, opcode, bufferSize, script);
            && (|fs| == 0 <==> |data| == 0 && opcode == 0) && Continued(fs, opcode, bufferSize) && GoesOn(fs, data, fin, bufferSize, script)
            && Accepted(fs, script) <= data
            && (AllWritten(fs, script) ==> Accepted(fs, script) == data && ret == |data|)
            && (!AllWritten(fs, script) ==> ret <= 0)
  {
    hide *;
    FramesContinue(data, opcode, fin, bufferSize, script);
    FramesGoOn(data, opcode, fin, bufferSize, script);
    FramesAccepted(data, opcode, fin, bufferSize, script, 0);
  }

  lemma OneFrame(data: seq<byte>, opcode: byte, fin: bool, bufferSize: nat, script: seq<int>, sent: nat)
    requires bufferSize > 0 && (|data| > 0 || opcode != 0)
    ensures var need := Need(|data|, bufferSize);
            var f := Frame(NextOpcode(opcode, fin, |data|, bufferSize), data[..need]);
            var wlen := Written(script, need);
            && need <= |data| && f.Op() == opcode % FIN && (!Failed(wlen, need) ==> 0 <= wlen <= need && (need > 0 ==> wlen > 0))
            && Frames(data, opcode, fin, bufferSize, script)
               == (if Failed(wlen, need) then [f] else [f] + Frames(data[wlen..], 0, fin, bufferSize, Rest(script)))
            && Result(sent, data, opcode, bufferSize, script)
               == (if Failed(wlen, need) then wlen else Result(sent + wlen, data[wlen..], 0, bufferSize, Rest(script)))
  {
  }

  lemma NoFrame(fin: bool, bufferSize: nat, script: seq<int>, sent: nat)
    requires bufferSize > 0
    ensures Frames([], 0, fin, bufferSize, script) == [] && Result(sent, [], 0, bufferSize, script) == sent
    ensures Accepted([], script) == [] && AllWritten([], script)
  {
  }

  lemma {:induction false} FramesContinue(data: seq<byte>, opcode: byte, fin: bool, bufferSize: nat, script: seq<int>)
    requires bufferSize > 0
    ensures var fs := Frames(data, opcode, fin, bufferSize, script);
            && (|fs| == 0 <==> |data| == 0 && opcode == 0) && Continued(fs, opcode, bufferSize)
            && (opcode == 0 && |fs| > 0 ==> |fs[0].payload| > 0)
    decreases |data|, opcode
  {
    hide Frames, Result, Written, NextOpcode, Rest, Failed;
    if |data| > 0 || opcode != 0 {
      OneFrame(data, opcode, fin, bufferSize, script, 0);
      var wlen := Written(script, Need(|data|, bufferSize));
      if !Failed(wlen, Need(|data|, bufferSize)) {
        FramesContinue(data[wlen..], 0, fin, bufferSize, Rest(script));
      }
    } else {
      NoFrame(fin, bufferSize, script, 0);
    }
  }

  lemma {:induction false} FramesAccepted(data: seq<byte>, opcode: byte, fin: bool, bufferSize: nat, script: seq<int>, sent: nat)
    requires bufferSize > 0
    ensures var fs, ret := Frames(data, opcode, fin, bufferSize, script), Result(sent, data, opcode, bufferSize, script);
            && Accepted(fs, script) <= data
            && (AllWritten(fs, script) ==> Accepted(fs, script) == data && ret == sent + |data|)
            && (!AllWritten(fs, script) ==> ret <= 0)
    decreases |data|, opcode
  {
    hide Frames, Result, Written, NextOpcode, Rest, Accepted, AllWritten;
    if |data| > 0 || opcode != 0 {
      OneFrame(data, opcode, fin, bufferSize, script, sent);
      var need := Need(|data|, bufferSize);
      var f, wlen := Frame(NextOpcode(opcode, fin, |data|, bufferSize), data[..need]), Written(script, need);
      if Failed(wlen, need) {
        FirstAccepted(f, [], script);
        assert [f] + [] == [f];
      } else {
        FramesAccepted(data[wlen..], 0, fin, bufferSize, Rest(script), sent + wlen);
        FirstAccepted(f, Frames(data[wlen..], 0, fin, bufferSize, Rest(script)), script);
        assert f.payload[..wlen] == data[..wlen] && data[..wlen] + data[wlen..] == data;
        PrefixBehind(data[..wlen], Accepted(Frames(data[wlen..], 0, fin, bufferSize, Rest(script)), Rest(script)), data[wlen..]);
      }
    } else {
      NoFrame(fin, bufferSize, script, sent);
    }
  }

  lemma PrefixBehind(a: seq<byte>, b: seq<byte>, c: seq<byte>)
    requires b <= c
    ensures a + b <= a + c
  {
  }

  lemma FirstAccepted(f: Frame, fs: seq<Frame>, script: seq<int>)
    ensures var failed := Failed(Written(script, |f.payload|), |f.payload|);
            && Accepted([f] + fs, script) == (if failed then [] else f.payload[..Written(script, |f.payload|)] + Accepted(fs, Rest(script)))
            && AllWritten([f] + fs, script) == (!failed && AllWritten(fs, Rest(script)))
  {
    hide Written, Rest;
    assert ([f] + fs)[1..] == fs;
  }

  lemma {:induction false} FramesGoOn(data: seq<byte>, opcode: byte, fin: bool, bufferSize: nat, script: seq<int>)
    requires bufferSize > 0 && (opcode >= FIN ==> fin)
    ensures GoesOn(Frames(data, opcode, fin, bufferSize, script), data, fin, bufferSize, script)
    decreases |data|, opcode
  {
    hide Frames, Result, Written, Rest, Accepted, GoesOnAt, Failed;
    if |data| > 0 || opcode != 0 {
      OneFrame(data, opcode, fin, bufferSize, script, 0);
      var need := Need(|data|, bufferSize);
      var f, wlen := Frame(NextOpcode(opcode, fin, |data|, bufferSize), data[..need]), Written(script, need);
      var more := if Failed(wlen, need) then [] else Frames(data[wlen..], 0, fin, bufferSize, Rest(script));
      assert [f] + [] == [f];
      FirstGoesOn(f, more, data, fin, bufferSize, script);
      if !Failed(wlen, need) {
        FramesGoOn(data[wlen..], 0, fin, bufferSize, Rest(script));
        MoreGoOn(f, more, data, wlen, fin, bufferSize, script);
      }
    } else {
      NoFrame(fin, bufferSize, script, 0);
    }
  }

  lemma MoreGoOn(f: Frame, more: seq<Frame>, data: seq<byte>, wlen: nat, fin: bool, bufferSize: nat, script: seq<int>)
    requires wlen <= |f.payload| <= |data| && wlen == Written(script, |f.payload|) && !Failed(wlen, |f.payload|)
    requires GoesOn(more, data[wlen..], fin, bufferSize, Rest(script)) && GoesOnAt([f] + more, 0, data, fin, bufferSize, script)
    ensures GoesOn([f] + more, data, fin, bufferSize, script)
  {
    hide GoesOnAt, Written, Rest, Failed;
    forall i | 1 <= i < |[f] + more| ensures GoesOnAt([f] + more, i, data, fin, bufferSize, script) {
      assert GoesOnAt(more, i - 1, data[wlen..], fin, bufferSize, Rest(script));
      LaterGoesOn(f, more, i - 1, data, wlen, fin, bufferSize, script);
    }
  }

  lemma FirstGoesOn(f: Frame, more: seq<Frame>, data: seq<byte>, fin: bool, bufferSize: nat, script: seq<int>)
    requires bufferSize > 0 && f.payload == data[..Need(|data|, bufferSize)] && f.Fin() == (fin && |data| <= bufferSize)
    ensures GoesOnAt([f] + more, 0, data, fin, bufferSize, script)
  {
    assert ([f] + more)[..0] == [];
  }

  lemma LaterGoesOn(f: Frame, more: seq<Frame>, i: nat, data: seq<byte>, wlen: nat, fin: bool, bufferSize: nat, script: seq<int>)
    requires i < |more| && wlen <= |f.payload| <= |data| && wlen == Written(script, |f.payload|) && !Failed(wlen, |f.payload|)
    requires GoesOnAt(more, i, data[wlen..], fin, bufferSize, Rest(script))
    ensures GoesOnAt([f] + more, i + 1, data, fin, bufferSize, script)
  {
    hide Written, Rest, Accepted, Need;
    FirstAccepted(f, more[..i], script);
    assert ([f] + more)[..i + 1] == [f] + more[..i];
    var at := |Accepted(more[..i], Rest(script))|;
    assert data[wlen..][at..] == data[wlen + at..];
  }

  /** A short write of a two-byte message: FIN is set on a frame that is not the last. */
  lemma EarlyFin()
    ensures var fs := Frames([1, 2], 0x82, true, 16, [1]);
            |fs| == 2 && fs[0].Fin() && ShortFinal([1, 2], 0x82, 16, [1])
  {
    assert [1, 2][1..] == [2];
    assert Frames([2][1..], 0, true, 16, []) == [];
    assert Frames([2], 0, true, 16, []) == [Frame(0x80, [2][..1])] + Frames([2][1..], 0, true, 16, []);
  }
}
