/**
 The intercom's session buffer: `esp_websocket_client_recv` hands a message over in whatever pieces the
 transport reads, and `ws_event_handler` puts it together again.
 */
module Intercom {
  import opened Bits

  const MAX_SESSION_BYTES: nat := 512000

  // ---------- what a session is ----------

  /** The samples of a message: whole ones, of two bytes. */
  function Whole(m: seq<byte>): seq<byte> {
    m[..2 * (|m| / 2)]
  }

  /** What the client task reports to the handler, message by message. */
  datatype Event = Binary(m: seq<byte>) | Stop | Disconnected

  /** The session: what has been buffered, and whether it is open. */
  datatype Session = Session(buffer: seq<byte>, open: bool)

  /** A message opens a session that is not open, and is taken if it fits. */
  function Taken(s: Session, m: seq<byte>): Session {
    var buffer := if s.open then s.buffer else [];
    Session(if |buffer| + |m| > MAX_SESSION_BYTES then buffer else buffer + Whole(m), true)
  }

  function After(s: Session, e: Event): Session {
    match e
    case Binary(m) => Taken(s, m)
    case Stop => s.(open := false)
    case Disconnected => Session([], false)
  }

  function AfterAll(s: Session, es: seq<Event>): Session {
    if |es| == 0 then s else After(AfterAll(s, es[..|es| - 1]), es[|es| - 1])
  }

  class Handler {
    const psramBuf: array<byte>
    var psramSamples: nat
    var sessionOpen: bool
    var plays: nat

    ghost predicate Valid()
      reads `psramSamples
    {
      psramBuf.Length == MAX_SESSION_BYTES && 2 * psramSamples <= MAX_SESSION_BYTES
    }

    ghost function Now(): Session
      requires Valid()
      reads `psramSamples, `sessionOpen, psramBuf
    {
      Session(psramBuf[..2 * psramSamples], sessionOpen)
    }

    constructor ()
      ensures Valid() && Now() == Session([], false) && plays == 0
    {
      psramBuf := new byte[MAX_SESSION_BYTES];
      psramSamples, sessionOpen, plays := 0, false, 0;
    }

    method SessionReset()
      requires Valid()
      modifies `psramSamples, `sessionOpen
      ensures Valid() && Now() == Session([], false)
    {
      psramSamples := 0;
      sessionOpen := false;
    }

    /** WEBSOCKET_EVENT_DISCONNECTED. */
    method OnDisconnected()
      requires Valid()
      modifies `psramSamples, `sessionOpen
      ensures Valid() && Now() == After(old(Now()), Disconnected)
      ensures psramSamples == 0 && !sessionOpen
    {
      SessionReset();
    }

    /** The pieces of the message `m` up to `n` bytes have arrived, in a session that was `before`. */
    ghost predicate Receiving(before: Session, m: seq<byte>, n: nat)
      requires Valid()
      reads `psramSamples, `sessionOpen, psramBuf
    {
      var buffer := if before.open then before.buffer else [];
      && n <= |m|
      && if n == 0 && !sessionOpen then Now() == before && !before.open
         else
           && sessionOpen && Now().buffer == buffer
           && (|buffer| + |m| <= MAX_SESSION_BYTES ==> psramBuf[|buffer|..|buffer| + n] == m[..n])
    }

    /** `memcpy` into the session buffer. */
    method Memcpy(dst: nat, src: seq<byte>)
      requires dst + |src| <= psramBuf.Length
      modifies psramBuf
      ensures psramBuf[..] == old(psramBuf[..dst]) + src + old(psramBuf[dst + |src|..])
    {
      for i := 0 to |src|
        invariant forall k :: 0 <= k < psramBuf.Length ==> psramBuf[k] == if dst <= k < dst + i then src[k - dst] else old(psramBuf[k])
      {
        psramBuf[dst + i] := src[i];
      }
    }

    /** A piece of a message that fits goes behind what is there; the last one makes the message part of it. */
    method Store(chunk: seq<byte>, payloadLen: nat, payloadOffset: nat, ghost m: seq<byte>)
      requires Valid() && payloadLen == |m| && payloadOffset + |chunk| <= |m| && chunk == m[payloadOffset..payloadOffset + |chunk|]
      requires 2 * psramSamples + |m| <= MAX_SESSION_BYTES
      requires psramBuf[2 * psramSamples..2 * psramSamples + payloadOffset] == m[..payloadOffset]
      modifies `psramSamples, psramBuf
      ensures Valid()
      ensures if payloadOffset + |chunk| >= payloadLen then psramBuf[..2 * psramSamples] == old(psramBuf[..2 * psramSamples]) + Whole(m)
              else psramSamples == old(psramSamples) && psramBuf[..2 * psramSamples] == old(psramBuf[..2 * psramSamples])
                   && psramBuf[2 * psramSamples..2 * psramSamples + payloadOffset + |chunk|] == m[..payloadOffset + |chunk|]
    {
      ghost var n, was := 2 * psramSamples, psramBuf[..];
      Memcpy(psramSamples * 2 + payloadOffset, chunk);
      PieceStored(was, psramBuf[..], n, payloadOffset, chunk, m);
      assert psramBuf[..][..n] == psramBuf[..n] && was[..n] == old(psramBuf[..n]);
      assert psramBuf[..][n..n + payloadOffset + |chunk|] == psramBuf[n..n + payloadOffset + |chunk|];
      var complete := payloadOffset + |chunk| >= payloadLen;
      if complete {
        psramSamples := psramSamples + payloadLen / 2;
        assert psramBuf[..][..2 * psramSamples] == psramBuf[..2 * psramSamples];
      }
    }

    /** WEBSOCKET_EVENT_DATA with a binary opcode: one piece of a message of `payloadLen` bytes. */
    method OnBinary(chunk: seq<byte>, payloadLen: nat, payloadOffset: nat, ghost before: Session, ghost m: seq<byte>)
      requires Valid() && payloadLen == |m| && payloadOffset + |chunk| <= |m| && chunk == m[payloadOffset..payloadOffset + |chunk|]
      requires Receiving(before, m, payloadOffset)
      modifies `psramSamples, `sessionOpen, psramBuf
      ensures Valid()
      ensures if payloadOffset + |chunk| >= payloadLen then Now() == Taken(before, m) else Receiving(before, m, payloadOffset + |chunk|)
    {
      if !sessionOpen && payloadOffset == 0 {
        SessionReset();
        sessionOpen := true;
      }
      var msgEndByte := psramSamples * 2 + payloadLen;
      if msgEndByte > MAX_SESSION_BYTES {
        return;
      }
      Store(chunk, payloadLen, payloadOffset, m);
    }

    /** WEBSOCKET_EVENT_DATA with a text opcode: a piece that starts with `stop` ends an open session. */
    method OnText(chunk: seq<byte>)
      requires Valid()
      modifies `sessionOpen, `plays
      ensures Valid()
      ensures var stop := |chunk| >= 4 && chunk[..4] == [0x73, 0x74, 0x6F, 0x70];
              && Now() == (if stop then After(old(Now()), Stop) else old(Now()))
              && plays == old(plays) + if stop && old(sessionOpen) then 1 else 0
    {
      if |chunk| >= 4 && chunk[..4] == [0x73, 0x74, 0x6F, 0x70] {
        if sessionOpen {
          sessionOpen := false;
          plays := plays + 1;
        }
      }
    }
  }

  /** What one copy adds to the pieces already there. */
  lemma PieceStored(was: seq<byte>, now: seq<byte>, n: nat, at: nat, chunk: seq<byte>, m: seq<byte>)
    requires n + |m| <= |was| && at + |chunk| <= |m| && chunk == m[at..at + |chunk|] && was[n..n + at] == m[..at]
    requires now == was[..n + at] + chunk + was[n + at + |chunk|..]
    ensures |now| == |was| && now[..n] == was[..n] && now[n..n + at + |chunk|] == m[..at + |chunk|]
    ensures at + |chunk| == |m| ==> now[..n + 2 * (|m| / 2)] == was[..n] + Whole(m)
  {
    forall k | 0 <= k < at + |chunk| ensures now[n + k] == m[k] {
      if k < at {
        assert was[n..n + at][k] == m[..at][k];
      } else {
        assert chunk[k - at] == m[at..at + |chunk|][k - at];
      }
    }
  }

  // ---------- receiving a message ----------

  function Joined(chunks: seq<seq<byte>>): seq<byte> {
    if |chunks| == 0 then [] else chunks[0] + Joined(chunks[1..])
  }

  /** The reads that one call of `esp_websocket_client_recv` makes for a message: they stop once it is complete. */
  ghost predicate ReadsOf(chunks: seq<seq<byte>>, m: seq<byte>) {
    && Joined(chunks) == m && |chunks| > 0
    && forall i :: 0 <= i < |chunks| ==> |Joined(chunks[..i])| < |m| || (i == 0 && |m| == 0 && |chunks| == 1)
  }

  lemma {:induction false} JoinedSplit(chunks: seq<seq<byte>>, i: nat)
    requires i < |chunks|
    ensures Joined(chunks[..i + 1]) == Joined(chunks[..i]) + chunks[i]
    ensures |Joined(chunks[..i + 1])| <= |Joined(chunks)| && Joined(chunks[..i + 1]) == Joined(chunks)[..|Joined(chunks[..i + 1])|]
  {
    if i == 0 {
      assert chunks[..1] == [chunks[0]];
      assert chunks[..1][1..] == [];
      assert chunks[..0] == [];
    } else {
      JoinedSplit(chunks[1..], i - 1);
      assert chunks[..i + 1][1..] == chunks[1..][..i];
      assert chunks[..i][1..] == chunks[1..][..i - 1];
      assert chunks[..i][0] == chunks[0] == chunks[..i + 1][0];
    }
  }

  class Client {
    var payloadOffset: nat

    constructor ()
      ensures payloadOffset == 0
    {
      payloadOffset := 0;
    }

    /**
     `esp_websocket_client_recv` for a binary message that the transport delivers in `chunks`: however it is
     split, the session takes the message whole or not at all.
     */
    method RecvBinary(handler: Handler, chunks: seq<seq<byte>>, payloadLen: nat, ghost m: seq<byte>)
      requires handler.Valid() && ReadsOf(chunks, m) && payloadLen == |m|
      modifies this, handler`psramSamples, handler`sessionOpen, handler.psramBuf
      ensures handler.Valid() && handler.Now() == After(old(handler.Now()), Binary(m))
    {
      hide Taken, Handler.Receiving, Handler.Now, Handler.Valid, ReadsOf;
      ghost var before := handler.Now();
      StartsReceiving(handler, before, m);
      ReadsStart(chunks, m);
      payloadOffset := 0;
      var i := 0;
      while i == 0 || payloadOffset < payloadLen
        invariant i <= |chunks| && payloadOffset == |Joined(chunks[..i])| <= |m| && handler.Valid()
        invariant if i > 0 && payloadOffset >= |m| then handler.Now() == Taken(before, m) else handler.Receiving(before, m, payloadOffset)
        decreases |chunks| - i
      {
        ReadsNext(chunks, m, i);
        handler.OnBinary(chunks[i], payloadLen, payloadOffset, before, m);
        payloadOffset := payloadOffset + |chunks[i]|;
        i := i + 1;
      }
    }
  }

  lemma ReadsStart(chunks: seq<seq<byte>>, m: seq<byte>)
    requires ReadsOf(chunks, m)
    ensures |Joined(chunks[..0])| == 0
  {
    assert chunks[..0] == [];
  }

  /** While the message is incomplete there is another read, and it brings its next bytes. */
  lemma ReadsNext(chunks: seq<seq<byte>>, m: seq<byte>, i: nat)
    requires ReadsOf(chunks, m) && i <= |chunks| && (i == 0 || |Joined(chunks[..i])| < |m|)
    ensures i < |chunks|
    ensures |Joined(chunks[..i])| + |chunks[i]| == |Joined(chunks[..i + 1])| <= |m|
    ensures chunks[i] == m[|Joined(chunks[..i])|..|Joined(chunks[..i + 1])|]
  {
    assert chunks[..|chunks|] == chunks;
    JoinedSplit(chunks, i);
  }

  lemma StartsReceiving(handler: Handler, before: Session, m: seq<byte>)
    requires handler.Valid() && before == handler.Now()
    ensures handler.Receiving(before, m, 0)
  {
  }

  // ---------- whole sessions ----------

  /** The messages of a session that are taken, in order. */
  function Kept(s: Session, ms: seq<seq<byte>>): seq<seq<byte>>
    decreases |ms|
  {
    if |ms| == 0 then [] else
      var m := ms[0];
      (if |(if s.open then s.buffer else [])| + |m| > MAX_SESSION_BYTES then [] else [m]) + Kept(Taken(s, m), ms[1..])
  }

  function Binaries(ms: seq<seq<byte>>): (es: seq<Event>)
    ensures |es| == |ms| && forall i :: 0 <= i < |ms| ==> es[i] == Binary(ms[i])
  {
    seq(|ms|, i requires 0 <= i < |ms| => Binary(ms[i]))
  }

  /** The session after messages, from the first on. */
  lemma {:induction false} AfterFirst(s: Session, es: seq<Event>)
    requires |es| > 0
    ensures AfterAll(s, es) == AfterAll(After(s, es[0]), es[1..])
    decreases |es|
  {
    var last := |es| - 1;
    if last == 0 {
      assert es[..0] == [] && es[1..] == [];
    } else {
      AfterFirst(s, es[..last]);
      assert es[..last][1..] == es[1..][..last - 1];
      assert es[..last][0] == es[0] && es[1..][last - 1] == es[last];
    }
  }

  /** The session never outgrows its memory, and holds whole samples. */
  lemma {:induction false} SessionBounded(es: seq<Event>)
    ensures var s := AfterAll(Session([], false), es);
            |s.buffer| <= MAX_SESSION_BYTES && |s.buffer| % 2 == 0
    decreases |es|
  {
    if |es| > 0 {
      SessionBounded(es[..|es| - 1]);
    }
  }

  /** Every sample of the messages that are kept, in order. */
  function WholeAll(ms: seq<seq<byte>>): seq<byte> {
    if |ms| == 0 then [] else Whole(ms[0]) + WholeAll(ms[1..])
  }

  /** The buffer of a session is what it held when it was opened and the whole samples of the messages kept. */
  lemma {:induction false} SessionHoldsKept(s: Session, ms: seq<seq<byte>>)
    requires |ms| > 0
    ensures AfterAll(s, Binaries(ms)) == Session((if s.open then s.buffer else []) + WholeAll(Kept(s, ms)), true)
    decreases |ms|
  {
    hide Whole, AfterAll;
    var es := Binaries(ms);
    var m, rest := ms[0], ms[1..];
    var buffer := if s.open then s.buffer else [];
    AfterFirst(s, es);
    assert es[1..] == Binaries(rest);
    var taken := if |buffer| + |m| > MAX_SESSION_BYTES then [] else [m];
    WholeAllAppend(taken, Kept(Taken(s, m), rest));
    WholeAllOne(m);
    if |rest| > 0 {
      SessionHoldsKept(Taken(s, m), rest);
      Associate(buffer, WholeAll(taken), WholeAll(Kept(Taken(s, m), rest)));
      assert buffer + [] == buffer;
    } else {
      NoEvents(Taken(s, m));
      assert Binaries(rest) == [];
      assert WholeAll(taken) + [] == WholeAll(taken);
      assert buffer + [] == buffer;
    }
  }

  lemma NoEvents(s: Session)
    ensures AfterAll(s, []) == s && WholeAll([]) == [] && Kept(s, []) == []
  {
  }

  lemma WholeAllOne(m: seq<byte>)
    ensures WholeAll([m]) == Whole(m)
  {
    hide Whole;
    assert [m][1..] == [];
  }

  lemma {:induction false} WholeAllAppend(a: seq<seq<byte>>, b: seq<seq<byte>>)
    ensures WholeAll(a + b) == WholeAll(a) + WholeAll(b)
  {
    hide Whole;
    if |a| == 0 {
      assert a + b == b;
    } else {
      assert (a + b)[1..] == a[1..] + b;
      WholeAllAppend(a[1..], b);
      Associate(Whole(a[0]), WholeAll(a[1..]), WholeAll(b));
    }
  }

  /** Nothing of the messages kept is lost exactly when each has an even number of bytes. */
  lemma {:induction false} NothingLost(ms: seq<seq<byte>>)
    ensures |WholeAll(ms)| <= |Joined(ms)|
    ensures WholeAll(ms) == Joined(ms) <==> forall i :: 0 <= i < |ms| ==> |ms[i]| % 2 == 0
  {
    if |ms| > 0 {
      NothingLost(ms[1..]);
      var w, j := Whole(ms[0]), WholeAll(ms[1..]);
      if |ms[0]| % 2 == 0 {
        assert w == ms[0];
        if w + j == ms[0] + Joined(ms[1..]) {
          assert j == (w + j)[|w|..] == (ms[0] + Joined(ms[1..]))[|w|..] == Joined(ms[1..]);
        }
        assert forall i :: 1 <= i < |ms| ==> ms[i] == ms[1..][i - 1];
        if !(forall i :: 0 <= i < |ms[1..]| ==> |ms[1..][i]| % 2 == 0) {
          var i :| 0 <= i < |ms[1..]| && |ms[1..][i]| % 2 != 0;
          assert ms[1..][i] == ms[i + 1];
        }
      } else {
        assert |w + j| < |Joined(ms)|;
      }
    }
  }

  /**
   Reassembly of a session: the buffer is the concatenation of exactly the messages that fit, if and only if
   each of those has an even length.
   */
  lemma SessionIsConcatenation(ms: seq<seq<byte>>)
    requires |ms| > 0
    ensures var kept := Kept(Session([], false), ms);
            AfterAll(Session([], false), Binaries(ms)).buffer == Joined(kept) <==> forall i :: 0 <= i < |kept| ==> |kept[i]| % 2 == 0
  {
    hide *;
    var start := Session([], false);
    SessionHoldsKept(start, ms);
    NothingLost(Kept(start, ms));
    assert [] + WholeAll(Kept(start, ms)) == WholeAll(Kept(start, ms));
  }

  /** Messages after the end of a session, whether `stop` or a disconnection, make a session of themselves alone. */
  lemma NextSession(s: Session, e: Event, ms: seq<seq<byte>>)
    requires (e.Stop? || e.Disconnected?) && |ms| > 0
    ensures !After(s, e).open && (e.Disconnected? ==> After(s, e).buffer == []) && (e.Stop? ==> After(s, e).buffer == s.buffer)
    ensures AfterAll(After(s, e), Binaries(ms)) == Session(WholeAll(Kept(Session([], false), ms)), true)
  {
    hide AfterAll, WholeAll, Whole;
    SessionHoldsKept(After(s, e), ms);
    assert Taken(After(s, e), ms[0]) == Taken(Session([], false), ms[0]);
    var all := WholeAll(Kept(After(s, e), ms));
    assert [] + all == all;
  }
}
