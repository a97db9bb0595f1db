/**
 The camera's frame pool: `cam_task`, the interrupt handler, the capture task and the send task as interleaved
 steps over the shared frames and queues.  Steps on memory only one task can reach are atomic.
 */
module FramePool {
  import opened Bits
  import opened MarkerSearch

  /** What `cam_config` and `cam_dma_config` fix. */
  datatype Config = Config(n: nat, latest: bool, jpeg: bool, psram: bool, fbSize: nat, recvSize: nat, half: nat, node: nat,
                           perDma: nat, convert: bool) {
    predicate Ok() {
      n >= 1 && half >= 1 && (jpeg ==> fbSize == recvSize)
    }

    /** Length of the HAL queue. */
    function QueueLength(): nat {
      if latest && n > 1 then n - 1 else n
    }

    /** Bytes allocated for a frame, alignment aside. */
    function BufferSize(): nat {
      if psram then (if fbSize < recvSize then recvSize else fbSize) + half else fbSize
    }

    /** `frame_copy_cnt` in PSRAM mode. */
    function CopyCount(): nat
      requires half >= 1
    {
      recvSize / half + if psram then 1 else 0
    }
  }

  /** A frame: its availability, its length and its memory. */
  datatype Frame = Frame(en: bool, len: nat, data: Buffer)

  datatype Event = Vsync | Eof

  datatype CamState = Idle | ReadBuf

  /** Where `cam_task` stands. */
  datatype CamPc =
    | Receive
    | Switch(ev: Event)
    | OnEof
    | OnVsync
    | Send
    | Pop
    | Resend(popped: nat)
    | Give(popped: nat)
    | ScanOwn(fromIdle: bool)
    | ScanAt(x: nat, fromIdle: bool)
    | Start(fromIdle: bool)
    | Started(ok: bool, fromIdle: bool)

  /** Where the capture task stands: in `cam_take`, or with a frame of its own. */
  datatype CapturePc = Away | Taking | Verify(f: nat) | GiveBack(f: nat) | Holding(f: nat) | ReturnIt(f: nat)

  datatype SenderPc = Waiting | Sending(f: nat) | Returning(f: nat)

  /**
   What the hardware does: a capture into a frame begins, and a chunk of it is copied there, or in PSRAM mode has
   been written there by the DMA.
   */
  datatype Dma = Begins(f: nat) | Copies(f: nat, chunk: Buffer) | Fills(f: nat)

  /** Everything the tasks share, and their program counters; `log` is what the hardware has done so far. */
  datatype State = State(frames: seq<Frame>, hal: seq<nat>, iframe: seq<nat>, dma: int,
                         state: CamState, pos: nat, cnt: nat, cam: CamPc, capture: CapturePc, sender: SenderPc, log: seq<Dma>)

  /** `xQueueIFrame` has room for four frames. */
  const IFRAME_LENGTH: nat := 4

  // ---------- ownership ----------

  function One(x: nat, f: nat): nat {
    if x == f then 1 else 0
  }

  /** How often a queue holds a frame. */
  function Count(q: seq<nat>, f: nat): nat {
    if |q| == 0 then 0 else One(q[0], f) + Count(q[1..], f)
  }

  /** The frames `cam_task` holds between taking one out of use and passing it on. */
  function CamHolds(s: State, f: nat): nat {
    match s.cam
    case Send => One(s.pos, f)
    case Pop => One(s.pos, f)
    case Resend(popped) => One(s.pos, f) + One(popped, f)
    case Give(popped) => One(popped, f)
    case _ => 0
  }

  function CaptureHolds(s: State, f: nat): nat {
    match s.capture
    case Verify(g) => One(g, f)
    case GiveBack(g) => One(g, f)
    case Holding(g) => One(g, f)
    case ReturnIt(g) => One(g, f)
    case _ => 0
  }

  function SenderHolds(s: State, f: nat): nat {
    match s.sender
    case Waiting => 0
    case Sending(g) => One(g, f)
    case Returning(g) => One(g, f)
  }

  /** In how many places outside the pool a frame is. */
  function Places(s: State, f: nat): nat {
    CamHolds(s, f) + Count(s.hal, f) + CaptureHolds(s, f) + Count(s.iframe, f) + SenderHolds(s, f)
  }

  /** A frame is in the pool, and may be filled, or in exactly one other place, once. */
  predicate Placed(s: State, f: nat) {
    Places(s, f) == if f < |s.frames| && !s.frames[f].en then 1 else 0
  }

  // ---------- contents ----------

  /** What the frame holds starts like a JPEG image. */
  predicate StartsSoi(f: Frame) {
    f.len >= 3 && |f.data| >= f.len && SoiAt(f.data[..f.len], 0)
  }

  predicate EndsEoi(f: Frame) {
    f.len >= 2 && |f.data| >= f.len && EoiAt(f.data, f.len - 2)
  }

  /** Non-PSRAM JPEG frames in use. */
  ghost predicate Content(c: Config, f: Frame) {
    && f.len <= |f.data| == c.BufferSize()
    && (c.jpeg && !c.psram ==> StartsSoi(f))
  }

  /** A frame handed to the application. */
  ghost predicate Delivered(c: Config, f: Frame) {
    Content(c, f) && (c.jpeg ==> EndsEoi(f))
  }

  /** The pc is one at which `cam_task` may still be filling the frame at `pos`. */
  predicate Filling(s: State) {
    s.cam in {Receive, Switch(Vsync), Switch(Eof), OnEof, OnVsync}
  }

  // ---------- the steps of cam_task ----------

  function SetEn(s: State, f: nat, en: bool): State
    requires f < |s.frames|
  {
    s.(frames := s.frames[f := s.frames[f].(en := en)])
  }

  function SetFrame(s: State, f: nat, fr: Frame): State
    requires f < |s.frames|
  {
    s.(frames := s.frames[f := fr])
  }

  /** `ll_cam_memcpy` to the end of the frame. */
  function Append(f: Frame, chunk: Buffer): Frame
    requires f.len + |chunk| <= |f.data|
  {
    f.(len := f.len + |chunk|, data := f.data[..f.len] + chunk + f.data[f.len + |chunk|..])
  }

  /** The task has an event. */
  ghost predicate CamReceive(s: State, s': State, ev: Event) {
    s.cam == Receive && s' == s.(cam := Switch(ev))
  }

  ghost predicate CamSwitch(s: State, s': State) {
    && s.cam.Switch?
    && s' == s.(cam := match s.state
                       case Idle => if s.cam.ev == Vsync then ScanOwn(true) else Receive
                       case ReadBuf => if s.cam.ev == Eof then OnEof else OnVsync)
  }

  const SOI_PROBE_BYTES: nat := 32

  /** The start of a capture must look like a JPEG image; in PSRAM mode only a copy of its first bytes is searched. */
  predicate ProbeOk(c: Config, f: Frame) {
    if !c.psram then StartsSoi(f) else
    var n := if c.half > SOI_PROBE_BYTES then SOI_PROBE_BYTES else c.half;
    n <= |f.data| && SoiAt(f.data[..n], 0)
  }

  /** Half a DMA buffer is full. */
  ghost predicate CamEof(c: Config, s: State, s': State, chunk: Buffer)
    requires c.Ok() && s.pos < |s.frames|
  {
    var f := s.frames[s.pos];
    && s.cam == OnEof && |chunk| <= c.perDma
    && if !c.psram && c.fbSize < f.len + c.perDma then
         s' == s.(dma := -1, cam := Receive)
       else if c.psram && s.cnt + 1 >= c.CopyCount() then
         s' == s.(dma := -1, state := Idle, cam := Receive)
       else
         && (!c.psram ==> f.len + |chunk| <= |f.data|)
         && var f' := if c.psram then f else Append(f, chunk);
            var t := SetFrame(s, s.pos, f').(log := s.log + [if c.psram then Fills(s.pos) else Copies(s.pos, chunk)]);
            if c.jpeg && s.cnt == 0 && !ProbeOk(c, f') then
              s' == t.(dma := -1, state := Idle, cam := Receive)
            else
              s' == t.(cnt := s.cnt + 1, cam := Receive)
  }

  /** The frame `cam_task` takes out of use at a VSYNC. */
  ghost predicate Finished(c: Config, s: State, f: Frame, f': Frame, chunk: Buffer)
    requires c.Ok()
  {
    if c.psram then
      f' == f.(en := false, len := if c.jpeg then (s.cnt + 1) * c.half else c.recvSize)
    else if !c.jpeg then
      f' == f.(en := f.len != c.fbSize)
    else if c.fbSize < f.len + c.perDma then
      f' == f.(en := false)
    else
      f.len + |chunk| <= |f.data| && f' == Append(f, chunk).(en := false)
  }

  /** The last chunk of a JPEG frame is copied at the VSYNC, if it is sure to fit. */
  predicate CopiesLast(c: Config, f: Frame) {
    c.jpeg && !c.psram && f.len + c.perDma <= c.fbSize
  }

  ghost predicate CamVsync(c: Config, s: State, s': State, chunk: Buffer)
    requires c.Ok() && s.pos < |s.frames|
  {
    && s.cam == OnVsync && |chunk| <= c.perDma
    && if s.cnt > 0 || !c.jpeg || c.psram then
         exists f' :: Finished(c, s, s.frames[s.pos], f', chunk)
           && s' == SetFrame(s, s.pos, f').(dma := -1, cam := if f'.en then ScanOwn(false) else Send,
                                            log := if CopiesLast(c, s.frames[s.pos]) then s.log + [Copies(s.pos, chunk)] else s.log)
       else
         s' == s.(dma := -1, cam := ScanOwn(false))
  }

  ghost predicate CamSend(c: Config, s: State, s': State) {
    && s.cam == Send
    && s' == if |s.hal| < c.QueueLength() then s.(hal := s.hal + [s.pos], cam := ScanOwn(false)) else s.(cam := Pop)
  }

  ghost predicate CamPop(s: State, s': State)
    requires s.pos < |s.frames|
  {
    && s.cam == Pop
    && s' == if |s.hal| > 0 then s.(hal := s.hal[1..], cam := Resend(s.hal[0])) else SetEn(s, s.pos, true).(cam := ScanOwn(false))
  }

  ghost predicate CamResend(c: Config, s: State, s': State)
    requires s.pos < |s.frames|
  {
    && s.cam.Resend?
    && s' == (if |s.hal| < c.QueueLength() then s.(hal := s.hal + [s.pos]) else SetEn(s, s.pos, true)).(cam := Give(s.cam.popped))
  }

  ghost predicate CamGive(s: State, s': State) {
    && s.cam.Give? && s.cam.popped < |s.frames|
    && s' == SetEn(s, s.cam.popped, true).(cam := ScanOwn(false))
  }

  ghost predicate CamScanOwn(s: State, s': State)
    requires s.pos < |s.frames|
  {
    && s.cam.ScanOwn?
    && s' == s.(cam := if s.frames[s.pos].en then Start(s.cam.fromIdle) else ScanAt(0, s.cam.fromIdle))
  }

  ghost predicate CamScanAt(s: State, s': State) {
    && s.cam.ScanAt?
    && s' == if s.cam.x >= |s.frames| then s.(cam := Started(false, s.cam.fromIdle))
             else if s.frames[s.cam.x].en then s.(pos := s.cam.x, cam := Start(s.cam.fromIdle))
             else s.(cam := ScanAt(s.cam.x + 1, s.cam.fromIdle))
  }

  /** `ll_cam_start`: the hardware may refuse. */
  ghost predicate CamStart(s: State, s': State, ok: bool) {
    && s.cam.Start?
    && s' == s.(dma := if ok then s.pos else s.dma, cam := Started(ok, s.cam.fromIdle),
                log := if ok then s.log + [Begins(s.pos)] else s.log)
  }

  ghost predicate CamStarted(s: State, s': State)
    requires s.pos < |s.frames|
  {
    && s.cam.Started?
    && var t := s.(cnt := 0, cam := Receive);
       s' == if s.cam.ok then SetFrame(t, s.pos, s.frames[s.pos].(len := 0)).(state := if s.cam.fromIdle then ReadBuf else s.state)
             else t.(state := if s.cam.fromIdle then s.state else Idle)
  }

  // ---------- the interrupt handler and the DMA ----------

  /** The event queue overflows: the capture stops. */
  ghost predicate IsrOverflow(s: State, s': State) {
    s' == s.(dma := -1, state := Idle)
  }

  /** In PSRAM mode the DMA writes the frame itself. */
  ghost predicate DmaWrites(c: Config, s: State, s': State, data: Buffer) {
    && c.psram && 0 <= s.dma < |s.frames| && |data| == |s.frames[s.dma].data|
    && s' == SetFrame(s, s.dma, s.frames[s.dma].(data := data))
  }

  // ---------- the capture task and the send task ----------

  ghost predicate CaptureCalls(s: State, s': State) {
    || (s.capture == Away && s' == s.(capture := Taking))
    || (s.capture == Taking && s' == s.(capture := Away))
  }

  ghost predicate CaptureTakes(s: State, s': State) {
    s.capture == Taking && |s.hal| > 0 && s' == s.(hal := s.hal[1..], capture := Verify(s.hal[0]))
  }

  /** Where `cam_take` finds the end marker, or -1. */
  function EndOffset(c: Config, f: Frame): int
    requires f.len <= |f.data|
  {
    var s := f.data[..f.len];
    if !c.psram then LastEoi(s, |s|) else
    var at := f.len - EoiProbeWindow(c.node, f.len);
    if EoiProbeWindow(c.node, f.len) < 2 then -1 else
    var off := FirstEoi(s[at..], 0);
    if off >= 0 then at + off else -1
  }

  /** The end marker cuts the frame, or the frame goes back; other formats may be converted in place. */
  ghost predicate CaptureVerifies(c: Config, s: State, s': State, len: nat, data: Buffer) {
    && s.capture.Verify? && s.capture.f < |s.frames|
    && var f := s.frames[s.capture.f];
       f.len <= |f.data|
       && if c.jpeg then
            s' == if EndOffset(c, f) >= 0 then SetFrame(s, s.capture.f, f.(len := EndOffset(c, f) + 2)).(capture := Holding(s.capture.f))
                  else s.(capture := GiveBack(s.capture.f))
          else if c.psram && c.convert then
            len <= f.len && |data| == |f.data| && s' == SetFrame(s, s.capture.f, f.(len := len, data := data)).(capture := Holding(s.capture.f))
          else s' == s.(capture := Holding(s.capture.f))
  }

  /** `cam_give` by the capture task, of a frame without an end marker or one it could not pass on. */
  ghost predicate CaptureGives(s: State, s': State) {
    || (s.capture.GiveBack? && s.capture.f < |s.frames| && s' == SetEn(s, s.capture.f, true).(capture := Taking))
    || (s.capture.ReturnIt? && s.capture.f < |s.frames| && s' == SetEn(s, s.capture.f, true).(capture := Away))
  }

  /** A frame of at least 100 bytes goes to the send task if its queue has room. */
  ghost predicate CapturePasses(s: State, s': State) {
    && s.capture.Holding? && s.capture.f < |s.frames|
    && s' == if s.frames[s.capture.f].len >= 100 && |s.iframe| < IFRAME_LENGTH
             then s.(iframe := s.iframe + [s.capture.f], capture := Away) else s.(capture := ReturnIt(s.capture.f))
  }

  ghost predicate SenderSteps(s: State, s': State) {
    match s.sender
    case Waiting => |s.iframe| > 0 && s' == s.(iframe := s.iframe[1..], sender := Sending(s.iframe[0]))
    case Sending(f) => s' == s.(sender := Returning(f))
    case Returning(f) => f < |s.frames| && s' == SetEn(s, f, true).(sender := Waiting)
  }

  ghost predicate CamStep(c: Config, s: State, s': State)
    requires c.Ok() && s.pos < |s.frames|
  {
    CamFills(c, s, s') || CamQueues(c, s, s') || CamStarts(s, s')
  }

  ghost predicate CamFills(c: Config, s: State, s': State)
    requires c.Ok() && s.pos < |s.frames|
  {
    || (exists ev :: CamReceive(s, s', ev))
    || CamSwitch(s, s')
    || (exists chunk :: CamEof(c, s, s', chunk))
    || (exists chunk :: CamVsync(c, s, s', chunk))
  }

  ghost predicate CamQueues(c: Config, s: State, s': State)
    requires s.pos < |s.frames|
  {
    CamSend(c, s, s') || CamPop(s, s') || CamResend(c, s, s') || CamGive(s, s')
  }

  ghost predicate CamStarts(s: State, s': State)
    requires s.pos < |s.frames|
  {
    CamScanOwn(s, s') || CamScanAt(s, s') || (exists ok :: CamStart(s, s', ok)) || CamStarted(s, s')
  }

  ghost predicate OtherStep(c: Config, s: State, s': State) {
    || IsrOverflow(s, s') || (exists data :: DmaWrites(c, s, s', data))
    || CaptureCalls(s, s') || CaptureTakes(s, s') || (exists len, data :: CaptureVerifies(c, s, s', len, data))
    || CaptureGives(s, s') || CapturePasses(s, s') || SenderSteps(s, s')
  }

  /** One step of any task. */
  ghost predicate Step(c: Config, s: State, s': State)
    requires c.Ok() && s.pos < |s.frames|
  {
    CamStep(c, s, s') || OtherStep(c, s, s')
  }

  /** After `cam_config`: every frame available, the queues empty, nothing running. */
  ghost predicate Init(c: Config, s: State) {
    && |s.frames| == c.n && (forall f :: 0 <= f < c.n ==> s.frames[f].en && s.frames[f].len == 0 && |s.frames[f].data| == c.BufferSize())
    && s.hal == [] && s.iframe == [] && s.dma == -1 && s.state == Idle && s.pos == 0 && s.cnt == 0
    && s.cam == Receive && s.capture == Away && s.sender == Waiting && s.log == []
  }

  // ---------- the invariant ----------

  predicate FromIdle(pc: CamPc) {
    match pc
    case ScanOwn(fi) => fi
    case ScanAt(_, fi) => fi
    case Start(fi) => fi
    case Started(_, fi) => fi
    case _ => false
  }

  /** The frame at `pos` must be available at these points. */
  predicate NeedsFrame(s: State) {
    s.cam in {OnEof, OnVsync} || s.cam.Start? || (s.cam.Started? && s.cam.ok) || (Filling(s) && (s.state == ReadBuf || s.cnt > 0))
  }

  /** Queues within bounds, and the DMA and the filling task only ever on an available frame. */
  ghost predicate Control(c: Config, s: State) {
    && |s.frames| == c.n && s.pos < c.n && |s.hal| <= c.QueueLength() && |s.iframe| <= IFRAME_LENGTH
    && (s.cam.Resend? ==> |s.hal| < c.QueueLength())
    && (s.dma == -1 || (s.dma == s.pos && s.frames[s.pos].en))
    && (NeedsFrame(s) ==> s.frames[s.pos].en)
    && (FromIdle(s.cam) ==> s.state == Idle) && (s.cam.ScanAt? ==> s.dma == -1)
  }

  /** The frame has been handed to the application. */
  predicate Handed(s: State, f: nat) {
    s.capture == Holding(f) || s.capture == ReturnIt(f) || Count(s.iframe, f) > 0 || SenderHolds(s, f) > 0
  }

  /** One frame: its place, its length and memory, and what it holds when in use or handed over. */
  ghost predicate FrameOk(c: Config, s: State, f: nat) {
    && Placed(s, f)
    && (f < |s.frames| ==>
          && |s.frames[f].data| == c.BufferSize() && s.frames[f].len <= c.BufferSize()
          && (!s.frames[f].en ==> Content(c, s.frames[f]))
          && (Handed(s, f) ==> Delivered(c, s.frames[f])))
  }

  /** What `cam_task` knows of the capture it is filling. */
  ghost predicate Capture(c: Config, s: State)
    requires c.Ok()
  {
    && (Filling(s) && c.psram ==> s.cnt <= c.recvSize / c.half)
    && (Filling(s) && s.cnt > 0 && c.jpeg && !c.psram ==> s.pos < |s.frames| && StartsSoi(s.frames[s.pos]))
  }

  ghost predicate Inv(c: Config, s: State)
    requires c.Ok()
  {
    Control(c, s) && Capture(c, s) && forall f: nat :: FrameOk(c, s, f)
  }

  lemma {:induction false} CountPush(q: seq<nat>, x: nat, f: nat)
    ensures Count(q + [x], f) == Count(q, f) + One(x, f)
  {
    if |q| > 0 {
      assert (q + [x])[1..] == q[1..] + [x];
      CountPush(q[1..], x, f);
    }
  }

  lemma CountPop(q: seq<nat>, f: nat)
    requires |q| > 0
    ensures Count(q, f) == One(q[0], f) + Count(q[1..], f)
  {
  }

  lemma InitHolds(c: Config, s: State)
    requires c.Ok() && Init(c, s)
    ensures Inv(c, s)
  {
  }

  // ---------- control is kept ----------

  lemma CamFillsKeepsControl(c: Config, s: State, s': State)
    requires c.Ok() && Control(c, s) && CamFills(c, s, s')
    ensures Control(c, s')
  {
    hide ProbeOk, Finished, StartsSoi, Config.CopyCount;
  }

  lemma CamQueuesKeepsControl(c: Config, s: State, s': State)
    requires c.Ok() && Control(c, s) && CamQueues(c, s, s')
    ensures Control(c, s')
  {
  }

  lemma CamStartsKeepsControl(c: Config, s: State, s': State)
    requires c.Ok() && Control(c, s) && CamStarts(s, s')
    ensures Control(c, s')
  {
  }

  lemma DeviceKeepsControl(c: Config, s: State, s': State)
    requires c.Ok() && Control(c, s) && (IsrOverflow(s, s') || (exists data :: DmaWrites(c, s, s', data)) || SenderSteps(s, s'))
    ensures Control(c, s')
  {
  }

  lemma CaptureKeepsControl(c: Config, s: State, s': State)
    requires c.Ok() && Control(c, s)
    requires CaptureCalls(s, s') || CaptureTakes(s, s') || CaptureGives(s, s') || CapturePasses(s, s')
             || exists len, data :: CaptureVerifies(c, s, s', len, data)
    ensures Control(c, s')
  {
    hide EndOffset;
  }

  lemma OthersKeepControl(c: Config, s: State, s': State)
    requires c.Ok() && Control(c, s) && OtherStep(c, s, s')
    ensures Control(c, s')
  {
    hide Control, IsrOverflow, DmaWrites, SenderSteps, CaptureCalls, CaptureTakes, CaptureGives, CapturePasses, CaptureVerifies;
    if IsrOverflow(s, s') || (exists data :: DmaWrites(c, s, s', data)) || SenderSteps(s, s') {
      DeviceKeepsControl(c, s, s');
    } else {
      CaptureKeepsControl(c, s, s');
    }
  }

  // ---------- every frame is kept ----------

  lemma SendKeepsFrame(c: Config, s: State, s': State, f: nat)
    requires c.Ok() && Control(c, s) && FrameOk(c, s, f) && (CamSend(c, s, s') || CamPop(s, s'))
    ensures FrameOk(c, s', f)
  {
    hide Content, Delivered, Count;
    CountPush(s.hal, s.pos, f);
    if |s.hal| > 0 {
      CountPop(s.hal, f);
    }
  }

  lemma ResendKeepsFrame(c: Config, s: State, s': State, f: nat)
    requires c.Ok() && Control(c, s) && FrameOk(c, s, f) && (CamResend(c, s, s') || CamGive(s, s'))
    ensures FrameOk(c, s', f)
  {
    hide Content, Delivered, Count;
    CountPush(s.hal, s.pos, f);
  }

  lemma CamQueuesKeepsFrame(c: Config, s: State, s': State, f: nat)
    requires c.Ok() && Control(c, s) && FrameOk(c, s, f) && CamQueues(c, s, s')
    ensures FrameOk(c, s', f)
  {
    hide FrameOk, CamSend, CamPop, CamResend, CamGive;
    if CamSend(c, s, s') || CamPop(s, s') {
      SendKeepsFrame(c, s, s', f);
    } else {
      ResendKeepsFrame(c, s, s', f);
    }
  }

  lemma CamStartsKeepsFrame(c: Config, s: State, s': State, f: nat)
    requires c.Ok() && Control(c, s) && FrameOk(c, s, f) && CamStarts(s, s')
    ensures FrameOk(c, s', f)
  {
    hide FrameOk, CamScanOwn, CamScanAt, CamStarted;
    if CamScanOwn(s, s') || CamScanAt(s, s') {
      ScansKeepFrame(c, s, s', f);
    } else if CamStarted(s, s') {
      StartedKeepsFrame(c, s, s', f);
    } else {
      StartKeepsFrame(c, s, s', f);
    }
  }

  lemma ScansKeepFrame(c: Config, s: State, s': State, f: nat)
    requires FrameOk(c, s, f) && s.pos < |s.frames| && (CamScanOwn(s, s') || CamScanAt(s, s'))
    ensures FrameOk(c, s', f)
  {
    hide Content, Delivered, Count;
  }

  lemma StartKeepsFrame(c: Config, s: State, s': State, f: nat)
    requires FrameOk(c, s, f) && exists ok :: CamStart(s, s', ok)
    ensures FrameOk(c, s', f)
  {
    hide Content, Delivered, Count;
  }

  lemma StartedKeepsFrame(c: Config, s: State, s': State, f: nat)
    requires c.Ok() && Control(c, s) && FrameOk(c, s, f) && CamStarted(s, s')
    ensures FrameOk(c, s', f)
  {
    hide Content, Delivered, Count;
    if f == s.pos && s.cam.ok {
      FillingIsFree(c, s);
    }
  }

  lemma ReceiveKeepsFrame(c: Config, s: State, s': State, f: nat)
    requires c.Ok() && Control(c, s) && FrameOk(c, s, f) && ((exists ev :: CamReceive(s, s', ev)) || CamSwitch(s, s'))
    ensures FrameOk(c, s', f)
  {
    hide Content, Delivered, Count;
  }

  /** A frame `cam_task` is filling is nowhere else. */
  lemma FillingIsFree(c: Config, s: State)
    requires Control(c, s) && FrameOk(c, s, s.pos) && s.frames[s.pos].en
    ensures Places(s, s.pos) == 0 && !Handed(s, s.pos)
  {
    hide Content, Delivered, Count;
  }

  lemma EofKeepsFrame(c: Config, s: State, s': State, f: nat, chunk: Buffer)
    requires c.Ok() && Control(c, s) && FrameOk(c, s, f) && CamEof(c, s, s', chunk)
    ensures FrameOk(c, s', f)
  {
    hide Content, Delivered, Count, ProbeOk, Config.CopyCount;
    if f == s.pos {
      FillingIsFree(c, s);
      EofFrame(c, s, s', chunk);
    } else {
      OtherFrameKept(c, s, s', f);
    }
  }

  /** The frame being filled stays in the pool and within its memory. */
  lemma EofFrame(c: Config, s: State, s': State, chunk: Buffer)
    requires c.Ok() && Control(c, s) && FrameOk(c, s, s.pos) && Places(s, s.pos) == 0 && !Handed(s, s.pos) && CamEof(c, s, s', chunk)
    ensures FrameOk(c, s', s.pos)
  {
    hide Content, Delivered, Count, ProbeOk, Config.CopyCount;
  }

  /** A frame that is not touched, in a step that moves no frame. */
  lemma OtherFrameKept(c: Config, s: State, s': State, f: nat)
    requires FrameOk(c, s, f) && |s'.frames| == |s.frames| && (f < |s.frames| ==> s'.frames[f] == s.frames[f])
    requires s'.hal == s.hal && s'.iframe == s.iframe && s'.capture == s.capture && s'.sender == s.sender
    requires CamHolds(s', f) == CamHolds(s, f)
    ensures FrameOk(c, s', f)
  {
    hide Content, Delivered, Count, CamHolds;
  }

  /** The part of a frame already there stays. */
  lemma AppendKeepsSoi(f: Frame, chunk: Buffer)
    requires f.len + |chunk| <= |f.data| && StartsSoi(f)
    ensures StartsSoi(Append(f, chunk))
  {
  }

  lemma FinishedContent(c: Config, s: State, f: Frame, f': Frame, chunk: Buffer)
    requires c.Ok() && Finished(c, s, f, f', chunk) && |f.data| == c.BufferSize() && f.len <= c.BufferSize() && |chunk| <= c.perDma
    requires c.psram ==> s.cnt <= c.recvSize / c.half
    requires c.jpeg && !c.psram ==> StartsSoi(f)
    ensures |f'.data| == c.BufferSize() && f'.len <= c.BufferSize() && (!f'.en ==> Content(c, f'))
  {
    hide StartsSoi;
    if c.psram {
      DmaLength(c, s.cnt);
    } else if c.jpeg {
      if c.fbSize < f.len + c.perDma {
        SoiOfPart(f, f');
      } else {
        AppendKeepsSoi(f, chunk);
        SoiOfPart(Append(f, chunk), f');
      }
    }
  }

  lemma SoiOfPart(f: Frame, f': Frame)
    requires f'.len == f.len && f'.data == f.data
    ensures StartsSoi(f') == StartsSoi(f)
  {
  }

  /** In PSRAM mode the length of a JPEG frame never exceeds what was allocated. */
  lemma DmaLength(c: Config, cnt: nat)
    requires c.Ok() && cnt <= c.recvSize / c.half
    ensures (cnt + 1) * c.half <= c.recvSize + c.half
  {
    var q, r := DivMod(c.recvSize, c.half);
    MulMonotone(cnt, q, c.half);
    MulDistribute(cnt, 1, c.half);
  }

  lemma VsyncKeepsFrame(c: Config, s: State, s': State, f: nat, chunk: Buffer)
    requires c.Ok() && Control(c, s) && Capture(c, s) && FrameOk(c, s, f) && CamVsync(c, s, s', chunk)
    ensures FrameOk(c, s', f)
  {
    hide Content, Delivered, Count, Finished, StartsSoi;
    if f == s.pos {
      FillingIsFree(c, s);
      if s.cnt > 0 || !c.jpeg || c.psram {
        var f' :| Finished(c, s, s.frames[s.pos], f', chunk)
          && s' == SetFrame(s, s.pos, f').(dma := -1, cam := if f'.en then ScanOwn(false) else Send,
                                           log := if CopiesLast(c, s.frames[s.pos]) then s.log + [Copies(s.pos, chunk)] else s.log);
        FinishedContent(c, s, s.frames[s.pos], f', chunk);
      }
    }
  }

  // ---------- the other tasks keep every frame ----------

  lemma CallsKeepFrame(c: Config, s: State, s': State, f: nat)
    requires c.Ok() && Control(c, s) && FrameOk(c, s, f) && (CaptureCalls(s, s') || CaptureTakes(s, s') || IsrOverflow(s, s'))
    ensures FrameOk(c, s', f)
  {
    hide Content, Delivered, Count;
    if |s.hal| > 0 {
      CountPop(s.hal, f);
    }
  }

  lemma PassesKeepFrame(c: Config, s: State, s': State, f: nat)
    requires c.Ok() && Control(c, s) && FrameOk(c, s, f) && CapturePasses(s, s')
    ensures FrameOk(c, s', f)
  {
    hide Content, Delivered, Count;
    CountPush(s.iframe, s.capture.f, f);
  }

  lemma GivesKeepFrame(c: Config, s: State, s': State, f: nat)
    requires c.Ok() && Control(c, s) && FrameOk(c, s, f) && CaptureGives(s, s')
    ensures FrameOk(c, s', f)
  {
    hide Content, Delivered, Count;
  }

  lemma SenderKeepsFrame(c: Config, s: State, s': State, f: nat)
    requires c.Ok() && Control(c, s) && FrameOk(c, s, f) && SenderSteps(s, s')
    ensures FrameOk(c, s', f)
  {
    hide Content, Delivered, Count, Control;
    if |s.iframe| > 0 {
      CountPop(s.iframe, f);
    }
  }

  lemma DmaKeepsFrame(c: Config, s: State, s': State, f: nat, data: Buffer)
    requires c.Ok() && Control(c, s) && FrameOk(c, s, f) && DmaWrites(c, s, s', data)
    ensures FrameOk(c, s', f)
  {
    hide Content, Delivered, Count;
    if f == s.pos {
      FillingIsFree(c, s);
    }
  }

  /** Cutting a frame after its end marker keeps its start. */
  lemma CutDelivers(c: Config, f: Frame)
    requires c.jpeg && Content(c, f) && EndOffset(c, f) >= 0
    ensures Delivered(c, f.(len := EndOffset(c, f) + 2)) && EndOffset(c, f) + 2 <= f.len
  {
    hide FirstEoi, LastEoi;
    var s, e := f.data[..f.len], EndOffset(c, f);
    if c.psram {
      var at := f.len - EoiProbeWindow(c.node, f.len);
      assert EoiAt(s[at..], e - at);
      assert s[at..][e - at] == s[e] && s[at..][e - at + 1] == s[e + 1];
    }
    assert EoiAt(s, e);
    assert s[e] == f.data[e] && s[e + 1] == f.data[e + 1];
    if !c.psram {
      assert s[0] == 0xFF && s[1] == 0xD8 && s[2] == 0xFF;
      assert e >= 2;
    }
  }

  lemma VerifiesKeepFrame(c: Config, s: State, s': State, f: nat, len: nat, data: Buffer)
    requires c.Ok() && Control(c, s) && FrameOk(c, s, f) && CaptureVerifies(c, s, s', len, data)
    ensures FrameOk(c, s', f)
  {
    hide Count, EndOffset, Content, Delivered;
    if f == s.capture.f {
      VerifiedFrame(c, s, s', len, data);
    }
  }

  lemma VerifiedFrame(c: Config, s: State, s': State, len: nat, data: Buffer)
    requires c.Ok() && s.capture.Verify? && FrameOk(c, s, s.capture.f) && CaptureVerifies(c, s, s', len, data)
    ensures FrameOk(c, s', s.capture.f)
  {
    hide Count, EndOffset, StartsSoi, EndsEoi;
    var f := s.capture.f;
    if c.jpeg && EndOffset(c, s.frames[f]) >= 0 {
      CutDelivers(c, s.frames[f]);
    }
  }

  // ---------- the capture being filled ----------

  lemma CamFillsKeepsCapture(c: Config, s: State, s': State)
    requires c.Ok() && Control(c, s) && Capture(c, s) && FrameOk(c, s, s.pos) && CamFills(c, s, s')
    ensures Capture(c, s')
  {
    hide StartsSoi, Finished, Content, Delivered, Count;
    if chunk :| CamEof(c, s, s', chunk) {
      EofKeepsCapture(c, s, s', chunk);
    }
  }

  lemma EofKeepsCapture(c: Config, s: State, s': State, chunk: Buffer)
    requires c.Ok() && Control(c, s) && Capture(c, s) && FrameOk(c, s, s.pos) && CamEof(c, s, s', chunk)
    ensures Capture(c, s')
  {
    hide StartsSoi, Content, Delivered, Count;
    var f := s.frames[s.pos];
    if !c.psram && f.len + |chunk| <= |f.data| && c.jpeg && s.cnt > 0 {
      AppendKeepsSoi(f, chunk);
    }
  }

  lemma CamMovesKeepCapture(c: Config, s: State, s': State)
    requires c.Ok() && Control(c, s) && Capture(c, s) && (CamQueues(c, s, s') || CamStarts(s, s'))
    ensures Capture(c, s')
  {
    hide StartsSoi;
  }

  /** The other tasks only touch frames that are not being filled. */
  lemma OthersKeepCapture(c: Config, s: State, s': State)
    requires c.Ok() && Control(c, s) && Capture(c, s) && FrameOk(c, s, s.pos) && OtherStep(c, s, s')
    ensures Capture(c, s')
  {
    hide Content, Delivered, Count, EndOffset;
    if Filling(s) && s.cnt > 0 {
      FillingIsFree(c, s);
    }
  }

  // ---------- the bytes of a capture ----------

  /** The bytes copied into a frame since a capture into it last began. */
  function Image(log: seq<Dma>, f: nat): Buffer
    decreases |log|
  {
    if |log| == 0 then [] else
    if log[|log| - 1].f != f then Image(log[..|log| - 1], f)
    else if log[|log| - 1].Begins? then []
    else if log[|log| - 1].Fills? then Image(log[..|log| - 1], f)
    else Image(log[..|log| - 1], f) + log[|log| - 1].chunk
  }

  lemma ImageMore(log: seq<Dma>, d: Dma, f: nat)
    ensures Image(log + [d], f) == if d.f != f || d.Fills? then Image(log, f) else if d.Begins? then [] else Image(log, f) + d.chunk
  {
    assert (log + [d])[..|log|] == log;
  }

  /** What the frame holds is the first bytes of its capture. */
  predicate HoldsStart(s: State, f: nat)
    requires f < |s.frames|
  {
    var len := s.frames[f].len;
    len <= |s.frames[f].data| && len <= |Image(s.log, f)| && s.frames[f].data[..len] == Image(s.log, f)[..len]
  }

  /** Between the start of the hardware and the reset of the length the frame still holds what it held before. */
  predicate Stale(s: State, f: nat) {
    s.cam.Started? && s.cam.ok && s.pos == f
  }

  /** The length of a frame in use: the whole capture, and once it has been verified a JPEG image up to its last end marker. */
  function LengthInUse(c: Config, s: State, f: nat): int {
    if c.jpeg && Handed(s, f) then LastEoi(Image(s.log, f), |Image(s.log, f)|) + 2 else |Image(s.log, f)|
  }

  /** One frame against the bytes the hardware has copied, when the DMA does not write frames itself. */
  ghost predicate FrameTrace(c: Config, s: State, f: nat) {
    !c.psram && f < |s.frames| ==>
      && (!Stale(s, f) ==> HoldsStart(s, f))
      && (!s.frames[f].en ==> s.frames[f].len == LengthInUse(c, s, f))
  }

  /** `cam_task` is filling the frame at `pos`. */
  predicate Capturing(s: State) {
    s.cam in {OnEof, OnVsync} || (Filling(s) && (s.state == ReadBuf || s.cnt > 0))
  }

  /** While it is, the frame holds the whole capture so far; at first that is nothing. */
  ghost predicate CaptureTrace(c: Config, s: State) {
    !c.psram && s.pos < |s.frames| ==>
      && (Capturing(s) ==> s.frames[s.pos].len == |Image(s.log, s.pos)|)
      && (Filling(s) && s.state == ReadBuf && s.cnt == 0 ==> s.frames[s.pos].len == 0)
      && (Stale(s, s.pos) ==> Image(s.log, s.pos) == [])
  }

  ghost predicate Trace(c: Config, s: State) {
    CaptureTrace(c, s) && forall f: nat :: FrameTrace(c, s, f)
  }

  lemma InitTraces(c: Config, s: State)
    requires c.Ok() && Init(c, s)
    ensures Trace(c, s)
  {
  }

  /** Copying a chunk behind a frame that holds all of its capture. */
  lemma CopyTraces(s: State, s': State, chunk: Buffer, en: bool)
    requires s.pos < |s.frames| && HoldsStart(s, s.pos) && s.frames[s.pos].len == |Image(s.log, s.pos)|
    requires s.frames[s.pos].len + |chunk| <= |s.frames[s.pos].data|
    requires s'.frames == s.frames[s.pos := Append(s.frames[s.pos], chunk).(en := en)] && s'.log == s.log + [Copies(s.pos, chunk)]
    ensures HoldsStart(s', s.pos) && s'.frames[s.pos].len == |Image(s'.log, s.pos)|
  {
    hide Image;
    ImageMore(s.log, Copies(s.pos, chunk), s.pos);
    var f := s.frames[s.pos];
    assert Append(f, chunk).data[..f.len + |chunk|] == f.data[..f.len] + chunk;
    assert f.data[..f.len] == Image(s.log, s.pos);
  }

  /** A frame whose bytes are not touched, while at most another one is logged; it may be given back. */
  lemma UntouchedTraces(c: Config, s: State, s': State, f: nat)
    requires FrameTrace(c, s, f) && |s'.frames| == |s.frames|
    requires f < |s.frames| ==> s'.frames[f].len == s.frames[f].len && s'.frames[f].data == s.frames[f].data
    requires f < |s.frames| && !s'.frames[f].en ==> !s.frames[f].en && (Handed(s', f) <==> Handed(s, f))
    requires s'.log == s.log || exists d :: s'.log == s.log + [d] && d.f != f
    requires Stale(s, f) ==> Stale(s', f)
    ensures FrameTrace(c, s', f)
  {
    hide Image, Handed;
    if s'.log != s.log {
      var d :| s'.log == s.log + [d] && d.f != f;
      ImageMore(s.log, d, f);
    }
  }

  lemma ReceiveTraces(c: Config, s: State, s': State)
    requires Trace(c, s) && ((exists ev :: CamReceive(s, s', ev)) || CamSwitch(s, s'))
    ensures Trace(c, s')
  {
    hide Image, Count, FrameTrace;
    forall f: nat ensures FrameTrace(c, s', f) {
      UntouchedTraces(c, s, s', f);
    }
  }

  lemma QueuesTrace(c: Config, s: State, s': State)
    requires Control(c, s) && Trace(c, s) && CamQueues(c, s, s')
    ensures Trace(c, s')
  {
    hide Image, Count, FrameTrace;
    forall f: nat ensures FrameTrace(c, s', f) {
      UntouchedTraces(c, s, s', f);
    }
  }

  lemma ScansTrace(c: Config, s: State, s': State)
    requires Control(c, s) && Trace(c, s) && (CamScanOwn(s, s') || CamScanAt(s, s'))
    ensures Trace(c, s')
  {
    hide Image, Count, FrameTrace;
    forall f: nat ensures FrameTrace(c, s', f) {
      UntouchedTraces(c, s, s', f);
    }
  }

  lemma StartTraces(c: Config, s: State, s': State, ok: bool)
    requires Control(c, s) && Trace(c, s) && CamStart(s, s', ok)
    ensures Trace(c, s')
  {
    hide Image, Count, FrameTrace;
    if ok {
      ImageMore(s.log, Begins(s.pos), s.pos);
    }
    forall f: nat ensures FrameTrace(c, s', f) {
      if ok && f == s.pos {
        StaleTraces(c, s', f);
      } else {
        if ok {
          assert s'.log == s.log + [Begins(s.pos)] && Begins(s.pos).f != f;
        }
        UntouchedTraces(c, s, s', f);
      }
    }
  }

  lemma StaleTraces(c: Config, s: State, f: nat)
    requires Stale(s, f) && (f < |s.frames| ==> s.frames[f].en)
    ensures FrameTrace(c, s, f)
  {
  }

  lemma StartedTraces(c: Config, s: State, s': State)
    requires Control(c, s) && Trace(c, s) && CamStarted(s, s')
    ensures Trace(c, s')
  {
    hide Image, Count, FrameTrace;
    forall f: nat ensures FrameTrace(c, s', f) {
      if s.cam.ok && f == s.pos {
        EmptyTraces(c, s', f);
      } else {
        UntouchedTraces(c, s, s', f);
      }
    }
  }

  lemma EmptyTraces(c: Config, s: State, f: nat)
    requires f < |s.frames| && s.frames[f].en && s.frames[f].len == 0
    ensures FrameTrace(c, s, f)
  {
    hide Image;
    assert s.frames[f].data[..0] == Image(s.log, f)[..0];
  }

  /** In PSRAM mode nothing is claimed of the bytes. */
  lemma DmaTraces(c: Config, s: State)
    requires c.psram
    ensures Trace(c, s)
  {
  }

  /** A chunk copied into the frame being filled, which stays in the pool or goes out of use. */
  lemma ChunkTraces(c: Config, s: State, s': State, chunk: Buffer, en: bool, f: nat)
    requires !c.psram && Control(c, s) && Trace(c, s) && Capturing(s) && s.frames[s.pos].en && FrameOk(c, s, s.pos)
    requires s.frames[s.pos].len + |chunk| <= |s.frames[s.pos].data|
    requires s'.frames == s.frames[s.pos := Append(s.frames[s.pos], chunk).(en := en)] && s'.log == s.log + [Copies(s.pos, chunk)]
    requires s'.capture == s.capture && s'.iframe == s.iframe && s'.sender == s.sender && !s'.cam.Started?
    ensures FrameTrace(c, s', f) && s'.frames[s.pos].len == |Image(s'.log, s.pos)|
  {
    hide Image, Append, Content, Delivered, Count;
    assert FrameTrace(c, s, s.pos) && FrameTrace(c, s, f);
    FillingIsFree(c, s);
    CopyTraces(s, s', chunk, en);
    if f != s.pos {
      assert s'.log == s.log + [Copies(s.pos, chunk)] && Copies(s.pos, chunk).f != f;
      UntouchedTraces(c, s, s', f);
    }
  }

  lemma EofTraces(c: Config, s: State, s': State, chunk: Buffer)
    requires c.Ok() && Control(c, s) && Trace(c, s) && FrameOk(c, s, s.pos) && CamEof(c, s, s', chunk)
    ensures Trace(c, s')
  {
    hide Image, Count, ProbeOk, Config.CopyCount, FrameTrace, FrameOk;
    if c.psram {
      DmaTraces(c, s');
    } else if c.fbSize < s.frames[s.pos].len + c.perDma {
      forall f: nat ensures FrameTrace(c, s', f) {
        UntouchedTraces(c, s, s', f);
      }
    } else {
      forall f: nat ensures FrameTrace(c, s', f) {
        ChunkTraces(c, s, s', chunk, true, f);
      }
      ChunkTraces(c, s, s', chunk, true, 0);
    }
  }

  lemma VsyncTraces(c: Config, s: State, s': State, chunk: Buffer)
    requires c.Ok() && Control(c, s) && Trace(c, s) && FrameOk(c, s, s.pos) && CamVsync(c, s, s', chunk)
    ensures Trace(c, s')
  {
    hide Image, Count, FrameTrace, FrameOk;
    if c.psram {
      DmaTraces(c, s');
    } else if s.cnt > 0 && CopiesLast(c, s.frames[s.pos]) {
      forall f: nat ensures FrameTrace(c, s', f) {
        ChunkTraces(c, s, s', chunk, false, f);
      }
    } else {
      FillingIsFree(c, s);
      forall f: nat ensures FrameTrace(c, s', f) {
        if f == s.pos {
          FinishedTraces(c, s, s');
        } else {
          UntouchedTraces(c, s, s', f);
        }
      }
    }
  }

  /** A frame that is finished without another copy. */
  lemma FinishedTraces(c: Config, s: State, s': State)
    requires !c.psram && Control(c, s) && Trace(c, s) && Capturing(s) && !Handed(s, s.pos)
    requires |s'.frames| == |s.frames| && s'.frames[s.pos].len == s.frames[s.pos].len && s'.frames[s.pos].data == s.frames[s.pos].data
    requires s'.log == s.log && s'.capture == s.capture && s'.iframe == s.iframe && s'.sender == s.sender
    ensures FrameTrace(c, s', s.pos)
  {
    hide Image, Count;
    assert FrameTrace(c, s, s.pos);
  }

  lemma CamTraces(c: Config, s: State, s': State)
    requires c.Ok() && s.pos < |s.frames| && Control(c, s) && Trace(c, s) && FrameOk(c, s, s.pos) && CamStep(c, s, s')
    ensures Trace(c, s')
  {
    hide Control, Trace, FrameOk, CamReceive, CamSwitch, CamEof, CamVsync, CamQueues, CamScanOwn, CamScanAt, CamStart, CamStarted;
    if CamQueues(c, s, s') {
      QueuesTrace(c, s, s');
    } else if CamStarts(s, s') {
      if ok :| CamStart(s, s', ok) {
        StartTraces(c, s, s', ok);
      } else if CamStarted(s, s') {
        StartedTraces(c, s, s');
      } else {
        ScansTrace(c, s, s');
      }
    } else if chunk :| CamEof(c, s, s', chunk) {
      EofTraces(c, s, s', chunk);
    } else if chunk :| CamVsync(c, s, s', chunk) {
      VsyncTraces(c, s, s', chunk);
    } else {
      ReceiveTraces(c, s, s');
    }
  }

  // ---------- the other tasks ----------

  /** The frame being filled is in nobody's hands. */
  lemma TakersKeepCapture(c: Config, s: State, s': State)
    requires Control(c, s) && CaptureTrace(c, s) && s'.log == s.log && s'.pos == s.pos && s'.cnt == s.cnt && s'.cam == s.cam
    requires |s'.frames| == |s.frames| && s'.state in {s.state, Idle} && s'.frames[s.pos].len == s.frames[s.pos].len
    ensures CaptureTrace(c, s')
  {
    hide Image;
  }

  lemma CallsTrace(c: Config, s: State, s': State)
    requires Control(c, s) && Trace(c, s) && (CaptureCalls(s, s') || CaptureTakes(s, s') || IsrOverflow(s, s'))
    ensures Trace(c, s')
  {
    hide Image, Count, FrameTrace;
    forall f: nat ensures FrameTrace(c, s', f) {
      UntouchedTraces(c, s, s', f);
    }
  }

  lemma GivesTrace(c: Config, s: State, s': State)
    requires Control(c, s) && Trace(c, s) && (forall f: nat :: FrameOk(c, s, f)) && CaptureGives(s, s')
    ensures Trace(c, s')
  {
    hide Image, Count, FrameTrace, CaptureTrace, FrameOk;
    TakersKeepCapture(c, s, s');
    forall f: nat ensures FrameTrace(c, s', f) {
      UntouchedTraces(c, s, s', f);
    }
  }

  lemma PassesTrace(c: Config, s: State, s': State)
    requires Control(c, s) && Trace(c, s) && CapturePasses(s, s')
    ensures Trace(c, s')
  {
    hide Image, Count, FrameTrace, CaptureTrace;
    TakersKeepCapture(c, s, s');
    forall f: nat ensures FrameTrace(c, s', f) {
      CountPush(s.iframe, s.capture.f, f);
      UntouchedTraces(c, s, s', f);
    }
  }

  lemma SenderTraces(c: Config, s: State, s': State)
    requires Control(c, s) && Trace(c, s) && (forall f: nat :: FrameOk(c, s, f)) && SenderSteps(s, s')
    ensures Trace(c, s')
  {
    hide Image, Count, FrameTrace, CaptureTrace, FrameOk, Control;
    SenderKeepsCapture(c, s, s');
    forall f: nat ensures FrameTrace(c, s', f) {
      if |s.iframe| > 0 {
        CountPop(s.iframe, f);
      }
      UntouchedTraces(c, s, s', f);
    }
  }

  lemma SenderKeepsCapture(c: Config, s: State, s': State)
    requires Control(c, s) && CaptureTrace(c, s) && SenderSteps(s, s')
    ensures CaptureTrace(c, s')
  {
    hide CaptureTrace;
    TakersKeepCapture(c, s, s');
  }

  /** Verifying cuts the image behind its last end marker. */
  lemma CutTraces(c: Config, s: State, s': State)
    requires !c.psram && c.jpeg && s.capture.Verify? && s.capture.f < |s.frames| && s.frames[s.capture.f].len <= |s.frames[s.capture.f].data|
    requires FrameTrace(c, s, s.capture.f) && !s.frames[s.capture.f].en && !Handed(s, s.capture.f) && !Stale(s, s.capture.f)
    requires var e := EndOffset(c, s.frames[s.capture.f]);
             e >= 0 && s' == SetFrame(s, s.capture.f, s.frames[s.capture.f].(len := e + 2)).(capture := Holding(s.capture.f))
    ensures FrameTrace(c, s', s.capture.f)
  {
    hide Image, Count;
    var f := s.frames[s.capture.f];
    assert f.data[..f.len] == Image(s.log, s.capture.f);
    var e := EndOffset(c, f);
    assert e + 2 <= f.len;
    assert f.data[..e + 2] == f.data[..f.len][..e + 2];
  }

  /** A frame in the hands of `cam_take` is in no other place. */
  lemma VerifiedIsOut(c: Config, s: State)
    requires Control(c, s) && s.capture.Verify? && s.capture.f < |s.frames| && FrameOk(c, s, s.capture.f)
    ensures !s.frames[s.capture.f].en && !Handed(s, s.capture.f) && !Stale(s, s.capture.f)
    ensures s.capture.f == s.pos ==> !s.frames[s.pos].en
  {
    hide Count, Content, Delivered;
  }

  lemma VerifiesTrace(c: Config, s: State, s': State, len: nat, data: Buffer)
    requires c.Ok() && Control(c, s) && Trace(c, s) && (forall f: nat :: FrameOk(c, s, f)) && CaptureVerifies(c, s, s', len, data)
    ensures Trace(c, s')
  {
    hide Image, Count, EndOffset, FrameTrace, FrameOk, CaptureTrace, Handed;
    if c.psram {
      DmaTraces(c, s');
    } else {
      var g := s.capture.f;
      assert FrameOk(c, s, g) && FrameTrace(c, s, g);
      VerifiedIsOut(c, s);
      VerifiesKeepCapture(c, s, s', len, data);
      forall f: nat ensures FrameTrace(c, s', f) {
        VerifiesFrame(c, s, s', len, data, f);
      }
    }
  }

  lemma VerifiesFrame(c: Config, s: State, s': State, len: nat, data: Buffer, f: nat)
    requires !c.psram && FrameTrace(c, s, f) && CaptureVerifies(c, s, s', len, data)
    requires s.capture.f == f && f < |s.frames| ==> !s.frames[f].en && !Handed(s, f) && !Stale(s, f)
    ensures FrameTrace(c, s', f)
  {
    hide Image, Count, EndOffset;
    if f == s.capture.f {
      if c.jpeg && EndOffset(c, s.frames[f]) >= 0 {
        CutTraces(c, s, s');
      }
    } else {
      UntouchedTraces(c, s, s', f);
    }
  }

  lemma VerifiesKeepCapture(c: Config, s: State, s': State, len: nat, data: Buffer)
    requires !c.psram && Control(c, s) && CaptureTrace(c, s) && CaptureVerifies(c, s, s', len, data)
    requires s.capture.f == s.pos ==> !s.frames[s.pos].en
    ensures CaptureTrace(c, s')
  {
    hide Image, EndOffset;
  }

  lemma OthersTrace(c: Config, s: State, s': State)
    requires c.Ok() && Control(c, s) && Trace(c, s) && (forall f: nat :: FrameOk(c, s, f)) && OtherStep(c, s, s')
    ensures Trace(c, s')
  {
    hide Control, Trace, FrameOk, IsrOverflow, CaptureCalls, CaptureTakes, CaptureVerifies, CaptureGives, CapturePasses, SenderSteps;
    if data :| DmaWrites(c, s, s', data) {
      DmaTraces(c, s');
    } else if len, data :| CaptureVerifies(c, s, s', len, data) {
      VerifiesTrace(c, s, s', len, data);
    } else if CaptureGives(s, s') {
      GivesTrace(c, s, s');
    } else if CapturePasses(s, s') {
      PassesTrace(c, s, s');
    } else if SenderSteps(s, s') {
      SenderTraces(c, s, s');
    } else {
      CallsTrace(c, s, s');
    }
  }

  /** Every step of any task keeps the frames to the bytes of their captures. */
  lemma StepKeepsTrace(c: Config, s: State, s': State)
    requires c.Ok() && Inv(c, s) && Trace(c, s) && s.pos < |s.frames| && Step(c, s, s')
    ensures Trace(c, s')
  {
    hide Control, FrameOk, Capture, CamStep, OtherStep, Trace;
    assert FrameOk(c, s, s.pos);
    if CamStep(c, s, s') {
      CamTraces(c, s, s');
    } else {
      OthersTrace(c, s, s');
    }
  }

  // ---------- the halves of a capture ----------

  /** How many half buffers have come into a frame since a capture into it last began. */
  function Halves(log: seq<Dma>, f: nat): nat
    decreases |log|
  {
    if |log| == 0 then 0 else
    if log[|log| - 1].f != f then Halves(log[..|log| - 1], f)
    else if log[|log| - 1].Begins? then 0
    else Halves(log[..|log| - 1], f) + 1
  }

  lemma HalvesMore(log: seq<Dma>, d: Dma, f: nat)
    ensures Halves(log + [d], f) == if d.f != f then Halves(log, f) else if d.Begins? then 0 else Halves(log, f) + 1
  {
    assert (log + [d])[..|log|] == log;
  }

  /** `cnt` counts the halves of the capture being filled. */
  ghost predicate CountTrace(s: State) {
    (Capturing(s) ==> s.cnt == Halves(s.log, s.pos)) && (Stale(s, s.pos) ==> Halves(s.log, s.pos) == 0)
  }

  /** In PSRAM mode the length of a JPEG frame that has not been verified is that of its halves and the one the VSYNC cut short. */
  ghost predicate LengthCounted(c: Config, s: State, f: nat) {
    c.psram && c.jpeg && f < |s.frames| && !s.frames[f].en && !Handed(s, f) ==> s.frames[f].len == (Halves(s.log, f) + 1) * c.half
  }

  ghost predicate Counted(c: Config, s: State) {
    CountTrace(s) && forall f: nat :: LengthCounted(c, s, f)
  }

  lemma UntouchedCounts(c: Config, s: State, s': State, f: nat)
    requires LengthCounted(c, s, f) && |s'.frames| == |s.frames|
    requires f < |s.frames| && !s'.frames[f].en && !Handed(s', f) ==> !s.frames[f].en && !Handed(s, f) && s'.frames[f].len == s.frames[f].len
    requires s'.log == s.log || exists d :: s'.log == s.log + [d] && d.f != f
    ensures LengthCounted(c, s', f)
  {
    hide Halves, Handed;
    if s'.log != s.log {
      var d :| s'.log == s.log + [d] && d.f != f;
      HalvesMore(s.log, d, f);
    }
  }

  /** Where `cam_task` neither starts a capture nor fills a frame. */
  lemma CamMovesCount(c: Config, s: State, s': State)
    requires Control(c, s) && Counted(c, s)
    requires (exists ev :: CamReceive(s, s', ev)) || CamSwitch(s, s') || CamScanOwn(s, s') || CamScanAt(s, s')
    ensures Counted(c, s')
  {
    hide Halves, Count, LengthCounted;
    forall f: nat ensures LengthCounted(c, s', f) {
      UntouchedCounts(c, s, s', f);
    }
  }

  lemma QueuesCount(c: Config, s: State, s': State)
    requires Control(c, s) && Counted(c, s) && CamQueues(c, s, s')
    ensures Counted(c, s')
  {
    hide Halves, Count, LengthCounted;
    forall f: nat ensures LengthCounted(c, s', f) {
      UntouchedCounts(c, s, s', f);
    }
  }

  lemma StartCounts(c: Config, s: State, s': State, ok: bool)
    requires Control(c, s) && Counted(c, s) && CamStart(s, s', ok)
    ensures Counted(c, s')
  {
    hide Halves, Count, LengthCounted, Handed;
    if ok {
      HalvesMore(s.log, Begins(s.pos), s.pos);
    }
    forall f: nat ensures LengthCounted(c, s', f) {
      if ok && f == s.pos {
        InPoolCounts(c, s', f);
      } else {
        if ok {
          assert s'.log == s.log + [Begins(s.pos)] && Begins(s.pos).f != f;
        }
        StartLeaves(s, s', ok, f);
        UntouchedCounts(c, s, s', f);
      }
    }
  }

  lemma StartLeaves(s: State, s': State, ok: bool, f: nat)
    requires CamStart(s, s', ok)
    ensures Handed(s', f) == Handed(s, f)
  {
  }

  lemma InPoolCounts(c: Config, s: State, f: nat)
    requires f < |s.frames| ==> s.frames[f].en
    ensures LengthCounted(c, s, f)
  {
  }

  lemma StartedCounts(c: Config, s: State, s': State)
    requires Control(c, s) && Counted(c, s) && CamStarted(s, s')
    ensures Counted(c, s')
  {
    hide Halves, Count, LengthCounted;
    forall f: nat ensures LengthCounted(c, s', f) {
      if s.cam.ok && f == s.pos {
        InPoolCounts(c, s', f);
      } else {
        UntouchedCounts(c, s, s', f);
      }
    }
  }

  lemma EofCounts(c: Config, s: State, s': State, chunk: Buffer)
    requires c.Ok() && Control(c, s) && Counted(c, s) && CamEof(c, s, s', chunk)
    ensures Counted(c, s')
  {
    hide Halves, Count, LengthCounted, ProbeOk, Config.CopyCount;
    var d := if c.psram then Fills(s.pos) else Copies(s.pos, chunk);
    HalvesMore(s.log, d, s.pos);
    forall f: nat ensures LengthCounted(c, s', f) {
      if f == s.pos {
        InPoolCounts(c, s', f);
      } else {
        assert s'.log == s.log || (s'.log == s.log + [d] && d.f != f);
        UntouchedCounts(c, s, s', f);
      }
    }
  }

  lemma VsyncCounts(c: Config, s: State, s': State, chunk: Buffer)
    requires c.Ok() && Control(c, s) && Counted(c, s) && FrameOk(c, s, s.pos) && CamVsync(c, s, s', chunk)
    ensures Counted(c, s')
  {
    hide Halves, Count, LengthCounted, FrameOk;
    FillingIsFree(c, s);
    forall f: nat ensures LengthCounted(c, s', f) {
      if f == s.pos {
        FinishedCounts(c, s, s', chunk);
      } else {
        assert s'.log == s.log || (s'.log == s.log + [Copies(s.pos, chunk)] && Copies(s.pos, chunk).f != f);
        UntouchedCounts(c, s, s', f);
      }
    }
  }

  lemma FinishedCounts(c: Config, s: State, s': State, chunk: Buffer)
    requires c.Ok() && Control(c, s) && CountTrace(s) && CamVsync(c, s, s', chunk)
    ensures LengthCounted(c, s', s.pos)
  {
    hide Halves, Count;
  }

  /** The other tasks do not touch what `cam_task` counts. */
  lemma OthersCount(c: Config, s: State, s': State)
    requires c.Ok() && Control(c, s) && Counted(c, s) && OtherStep(c, s, s')
    ensures Counted(c, s')
  {
    hide Halves, LengthCounted, EndOffset, Handed;
    forall f: nat ensures LengthCounted(c, s', f) {
      OtherLeaves(c, s, s', f);
      UntouchedCounts(c, s, s', f);
    }
  }

  lemma OtherLeaves(c: Config, s: State, s': State, f: nat)
    requires c.Ok() && Control(c, s) && OtherStep(c, s, s')
    ensures |s'.frames| == |s.frames| && s'.log == s.log
    ensures f < |s.frames| && !s'.frames[f].en && !Handed(s', f) ==> !s.frames[f].en && !Handed(s, f) && s'.frames[f].len == s.frames[f].len
  {
    hide Control, Handed, IsrOverflow, DmaWrites, CaptureCalls, CaptureTakes, CaptureVerifies, CaptureGives, CapturePasses, SenderSteps;
    if SenderSteps(s, s') {
      SenderLeaves(s, s', f);
    } else if CapturePasses(s, s') {
      PassLeaves(s, s', f);
    } else {
      TakerLeaves(c, s, s', f);
    }
  }

  lemma SenderLeaves(s: State, s': State, f: nat)
    requires SenderSteps(s, s')
    ensures |s'.frames| == |s.frames| && s'.log == s.log
    ensures f < |s.frames| && !s'.frames[f].en && !Handed(s', f) ==> !s.frames[f].en && !Handed(s, f) && s'.frames[f].len == s.frames[f].len
  {
    hide Count;
    if |s.iframe| > 0 {
      CountPop(s.iframe, f);
    }
  }

  lemma PassLeaves(s: State, s': State, f: nat)
    requires CapturePasses(s, s')
    ensures |s'.frames| == |s.frames| && s'.log == s.log
    ensures f < |s.frames| && !s'.frames[f].en && !Handed(s', f) ==> !s.frames[f].en && !Handed(s, f) && s'.frames[f].len == s.frames[f].len
  {
    hide Count;
    CountPush(s.iframe, s.capture.f, f);
  }

  lemma TakerLeaves(c: Config, s: State, s': State, f: nat)
    requires CaptureCalls(s, s') || CaptureTakes(s, s') || CaptureGives(s, s') || IsrOverflow(s, s')
             || (exists data :: DmaWrites(c, s, s', data)) || exists len, data :: CaptureVerifies(c, s, s', len, data)
    ensures |s'.frames| == |s.frames| && s'.log == s.log
    ensures f < |s.frames| && !s'.frames[f].en && !Handed(s', f) ==> !s.frames[f].en && !Handed(s, f) && s'.frames[f].len == s.frames[f].len
  {
    hide Count, EndOffset;
  }

  lemma StepKeepsCount(c: Config, s: State, s': State)
    requires c.Ok() && Inv(c, s) && Counted(c, s) && s.pos < |s.frames| && Step(c, s, s')
    ensures Counted(c, s')
  {
    hide Control, FrameOk, Capture, CamReceive, CamSwitch, CamEof, CamVsync, CamQueues, CamScanOwn, CamScanAt, CamStart, CamStarted, OtherStep, Counted;
    assert FrameOk(c, s, s.pos);
    if CamQueues(c, s, s') {
      QueuesCount(c, s, s');
    } else if ok :| CamStart(s, s', ok) {
      StartCounts(c, s, s', ok);
    } else if CamStarted(s, s') {
      StartedCounts(c, s, s');
    } else if chunk :| CamEof(c, s, s', chunk) {
      EofCounts(c, s, s', chunk);
    } else if chunk :| CamVsync(c, s, s', chunk) {
      VsyncCounts(c, s, s', chunk);
    } else if OtherStep(c, s, s') {
      OthersCount(c, s, s');
    } else {
      CamMovesCount(c, s, s');
    }
  }

  // ---------- every step, every run ----------

  lemma StepKeepsFrame(c: Config, s: State, s': State, f: nat)
    requires c.Ok() && Inv(c, s) && s.pos < |s.frames| && Step(c, s, s')
    ensures FrameOk(c, s', f)
  {
    hide Control, FrameOk, Capture, CamSwitch, CamReceive, CamEof, CamVsync, CamQueues, CamStarts;
    hide IsrOverflow, DmaWrites, CaptureCalls, CaptureTakes, CaptureVerifies, CaptureGives, CapturePasses, SenderSteps;
    assert FrameOk(c, s, f);
    if CamQueues(c, s, s') {
      CamQueuesKeepsFrame(c, s, s', f);
    } else if CamStarts(s, s') {
      CamStartsKeepsFrame(c, s, s', f);
    } else if CamFills(c, s, s') {
      if chunk :| CamEof(c, s, s', chunk) {
        EofKeepsFrame(c, s, s', f, chunk);
      } else if chunk :| CamVsync(c, s, s', chunk) {
        VsyncKeepsFrame(c, s, s', f, chunk);
      } else {
        ReceiveKeepsFrame(c, s, s', f);
      }
    } else {
      OtherKeepsFrame(c, s, s', f);
    }
  }

  lemma OtherKeepsFrame(c: Config, s: State, s': State, f: nat)
    requires c.Ok() && Control(c, s) && FrameOk(c, s, f) && OtherStep(c, s, s')
    ensures FrameOk(c, s', f)
  {
    hide Control, FrameOk, IsrOverflow, DmaWrites, CaptureCalls, CaptureTakes, CaptureVerifies, CaptureGives, CapturePasses, SenderSteps;
    if data :| DmaWrites(c, s, s', data) {
      DmaKeepsFrame(c, s, s', f, data);
    } else if len, data :| CaptureVerifies(c, s, s', len, data) {
      VerifiesKeepFrame(c, s, s', f, len, data);
    } else if CaptureGives(s, s') {
      GivesKeepFrame(c, s, s', f);
    } else if CapturePasses(s, s') {
      PassesKeepFrame(c, s, s', f);
    } else if SenderSteps(s, s') {
      SenderKeepsFrame(c, s, s', f);
    } else {
      CallsKeepFrame(c, s, s', f);
    }
  }

  /** Every step of any task keeps the invariant. */
  lemma StepKeepsInv(c: Config, s: State, s': State)
    requires c.Ok() && Inv(c, s) && s.pos < |s.frames| && Step(c, s, s')
    ensures Inv(c, s')
  {
    hide Control, FrameOk, Capture, CamFills, CamQueues, CamStarts, OtherStep;
    assert FrameOk(c, s, s.pos);
    forall f: nat ensures FrameOk(c, s', f) {
      StepKeepsFrame(c, s, s', f);
    }
    if CamFills(c, s, s') {
      CamFillsKeepsControl(c, s, s');
      CamFillsKeepsCapture(c, s, s');
    } else if CamQueues(c, s, s') {
      CamQueuesKeepsControl(c, s, s');
      CamMovesKeepCapture(c, s, s');
    } else if CamStarts(s, s') {
      CamStartsKeepsControl(c, s, s');
      CamMovesKeepCapture(c, s, s');
    } else {
      OthersKeepControl(c, s, s');
      OthersKeepCapture(c, s, s');
    }
  }

  /** A run: any interleaving of steps from the start. */
  ghost predicate Run(c: Config, states: seq<State>)
    requires c.Ok()
  {
    && |states| > 0 && Init(c, states[0])
    && forall i :: 0 <= i < |states| - 1 ==> states[i].pos < |states[i].frames| && Step(c, states[i], states[i + 1])
  }

  lemma {:induction false} RunKeepsInv(c: Config, states: seq<State>, i: nat)
    requires c.Ok() && Run(c, states) && i < |states|
    ensures Inv(c, states[i])
  {
    hide Inv, Step, Init;
    if i == 0 {
      InitHolds(c, states[0]);
    } else {
      RunKeepsInv(c, states, i - 1);
      StepKeepsInv(c, states[i - 1], states[i]);
    }
  }

  lemma {:induction false} RunKeepsTrace(c: Config, states: seq<State>, i: nat)
    requires c.Ok() && Run(c, states) && i < |states|
    ensures Trace(c, states[i])
  {
    hide Inv, Step, Init, Trace;
    if i == 0 {
      InitTraces(c, states[0]);
    } else {
      RunKeepsInv(c, states, i - 1);
      RunKeepsTrace(c, states, i - 1);
      StepKeepsTrace(c, states[i - 1], states[i]);
    }
  }

  lemma {:induction false} RunKeepsCount(c: Config, states: seq<State>, i: nat)
    requires c.Ok() && Run(c, states) && i < |states|
    ensures Counted(c, states[i])
  {
    hide Inv, Step, Init, Counted;
    if i == 0 {
      InitCounts(c, states[0]);
    } else {
      RunKeepsInv(c, states, i - 1);
      RunKeepsCount(c, states, i - 1);
      StepKeepsCount(c, states[i - 1], states[i]);
    }
  }

  lemma InitCounts(c: Config, s: State)
    requires c.Ok() && Init(c, s)
    ensures Counted(c, s)
  {
  }

  // ---------- what holds in every reachable state ----------

  /**
   Ownership in every run: a frame is available and in no queue and no task's hands, or unavailable and in
   exactly one of them; no queue holds a frame twice or a frame that does not exist.
   */
  lemma Ownership(c: Config, states: seq<State>, i: nat, f: nat)
    requires c.Ok() && Run(c, states) && i < |states|
    ensures var s := states[i];
            && |s.frames| == c.n
            && (f < c.n ==> (s.frames[f].en <==> Places(s, f) == 0) && Places(s, f) <= 1)
            && (f >= c.n ==> Places(s, f) == 0)
            && Count(s.hal, f) <= 1 && Count(s.iframe, f) <= 1
  {
    hide Step, Init, Run, Content, Delivered, Capture;
    RunKeepsInv(c, states, i);
    assert FrameOk(c, states[i], f);
  }

  /** DMA is only ever started, and frames are only ever filled, while the frame is available. */
  lemma FilledOnlyWhenAvailable(c: Config, states: seq<State>, i: nat)
    requires c.Ok() && Run(c, states) && i < |states|
    ensures var s := states[i];
            && s.pos < |s.frames| == c.n
            && (s.cam.Start? || s.cam == OnEof || s.cam == OnVsync ==> s.frames[s.pos].en)
            && (s.dma != -1 ==> s.dma == s.pos && s.frames[s.pos].en)
  {
    hide Step, Init, Run, Capture, FrameOk;
    RunKeepsInv(c, states, i);
  }

  /**
   Frames handed to the application: a JPEG frame ends with its end marker; without PSRAM mode it starts with
   FF D8 FF and lies within `fb_size`, and with it the length lies within the memory allocated.
   */
  lemma HandedFrames(c: Config, states: seq<State>, i: nat, f: nat)
    requires c.Ok() && Run(c, states) && i < |states| && Handed(states[i], f)
    ensures var s := states[i];
            && f < |s.frames| == c.n && !s.frames[f].en && s.frames[f].len <= |s.frames[f].data| == c.BufferSize()
            && (c.jpeg ==> s.frames[f].len >= 2 && EoiAt(s.frames[f].data, s.frames[f].len - 2))
            && (c.jpeg && !c.psram ==> s.frames[f].len <= c.fbSize && SoiAt(s.frames[f].data, 0))
            && (c.jpeg && c.psram ==> s.frames[f].len <= c.recvSize + c.half)
  {
    hide Step, Init, Run, Capture;
    RunKeepsInv(c, states, i);
    var s := states[i];
    assert FrameOk(c, s, f);
    HandedIsOut(s, f);
    var d := s.frames[f].data;
    if c.jpeg && !c.psram {
      assert d[..s.frames[f].len][0] == d[0] && d[..s.frames[f].len][1] == d[1] && d[..s.frames[f].len][2] == d[2];
    }
  }

  /**
   Without PSRAM mode, in every run: while a frame is being filled it holds exactly the bytes copied since its
   capture began, and a frame in use holds one capture: the whole of it, or once it has been handed over as a
   JPEG image, all of it up to its last end marker.
   */
  lemma FramesHoldCaptures(c: Config, states: seq<State>, i: nat, f: nat)
    requires c.Ok() && !c.psram && Run(c, states) && i < |states|
    ensures var s := states[i];
            && s.pos < |s.frames| == c.n
            && (Capturing(s) ==> s.frames[s.pos].len <= |s.frames[s.pos].data|
                                 && s.frames[s.pos].data[..s.frames[s.pos].len] == Image(s.log, s.pos))
            && (Filling(s) && s.state == ReadBuf && s.cnt == 0 ==> s.frames[s.pos].len == 0)
            && (f < c.n && !s.frames[f].en ==>
                  var image := Image(s.log, f);
                  var end := if c.jpeg && Handed(s, f) then LastEoi(image, |image|) + 2 else |image|;
                  0 <= end <= |image| && s.frames[f].len == end <= |s.frames[f].data| && s.frames[f].data[..end] == image[..end])
  {
    hide Step, Init, Run, Capture, Image, FrameOk, Count;
    RunKeepsInv(c, states, i);
    RunKeepsTrace(c, states, i);
    var s := states[i];
    assert FrameTrace(c, s, f) && FrameTrace(c, s, s.pos);
    assert Image(s.log, s.pos)[..|Image(s.log, s.pos)|] == Image(s.log, s.pos);
  }

  /**
   In every run `cnt` is the number of halves since the capture began, so that in PSRAM mode the length of a
   finished JPEG frame is that of the halves of its own capture.
   */
  lemma LengthIsOfCapture(c: Config, states: seq<State>, i: nat, f: nat)
    requires c.Ok() && Run(c, states) && i < |states|
    ensures var s := states[i];
            && (Capturing(s) ==> s.cnt == Halves(s.log, s.pos))
            && (c.psram && c.jpeg && f < |s.frames| && !s.frames[f].en && !Handed(s, f) ==> s.frames[f].len == (Halves(s.log, f) + 1) * c.half)
  {
    hide Step, Init, Run, Halves, Handed, Capturing;
    RunKeepsCount(c, states, i);
    assert LengthCounted(c, states[i], f);
  }

  lemma HandedIsOut(s: State, f: nat)
    requires Handed(s, f)
    ensures Places(s, f) > 0
  {
    hide Count;
  }

  /** The second send of a full queue always finds room: `cam_task` is the only sender. */
  lemma ResendNeverFails(c: Config, states: seq<State>, i: nat)
    requires c.Ok() && Run(c, states) && i < |states|
    ensures states[i].cam.Resend? ==> |states[i].hal| < c.QueueLength()
  {
    hide Step, Init, Run, Capture, FrameOk;
    RunKeepsInv(c, states, i);
  }

  /** How many entries of a queue are below `n`. */
  function CountBelow(q: seq<nat>, n: nat): nat {
    if n == 0 then 0 else CountBelow(q, n - 1) + Count(q, n - 1)
  }

  lemma {:induction false} CountBelowFirst(q: seq<nat>, n: nat)
    ensures |q| > 0 ==> CountBelow(q, n) == CountBelow(q[1..], n) + if q[0] < n then 1 else 0
    ensures |q| == 0 ==> CountBelow(q, n) == 0
  {
    if n > 0 {
      CountBelowFirst(q, n - 1);
    }
  }

  lemma {:induction false} CountBelowAll(q: seq<nat>, n: nat)
    requires forall f: nat :: f >= n ==> Count(q, f) == 0
    ensures CountBelow(q, n) == |q|
  {
    CountBelowFirst(q, n);
    if |q| > 0 {
      CountPop(q, q[0]);
      forall f: nat | f >= n ensures Count(q[1..], f) == 0 {
        CountPop(q, f);
      }
      CountBelowAll(q[1..], n);
    }
  }

  lemma {:induction false} CountBelowBound(q: seq<nat>, n: nat, x: nat)
    requires (forall f: nat :: Count(q, f) <= 1) && Count(q, x) == 0
    ensures CountBelow(q, n) <= n - if x < n then 1 else 0
  {
    if n > 0 {
      CountBelowBound(q, n - 1, x);
    }
  }

  /**
   With a queue as long as the pool (the WHEN_EMPTY mode, or a single frame) a finished frame always finds room:
   the branch that pops an old frame is never reached.
   */
  lemma FirstSendNeverFails(c: Config, states: seq<State>, i: nat)
    requires c.Ok() && c.QueueLength() == c.n && Run(c, states) && i < |states|
    ensures var s := states[i];
            && (s.cam == Send ==> |s.hal| < c.QueueLength())
            && s.cam != Pop && !s.cam.Resend? && !s.cam.Give?
    decreases i
  {
    hide Init, Capture, FrameOk, Control, OtherStep, CamFills, CamStarts;
    if states[i].cam == Send {
      RoomToSend(c, states, i);
    }
    if i == 0 {
      FreshState(c, states[0]);
    } else {
      FirstSendNeverFails(c, states, i - 1);
      ReachesPop(c, states[i - 1], states[i]);
    }
  }

  lemma FreshState(c: Config, s: State)
    requires Init(c, s)
    ensures s.cam == Receive
  {
  }

  /** Only a failed send leads to the branch. */
  lemma ReachesPop(c: Config, s: State, s': State)
    requires c.Ok() && s.pos < |s.frames| && Step(c, s, s')
    requires s.cam == Send ==> |s.hal| < c.QueueLength()
    requires s.cam != Pop && !s.cam.Resend? && !s.cam.Give?
    ensures s'.cam != Pop && !s'.cam.Resend? && !s'.cam.Give?
  {
    hide Finished, ProbeOk, EndOffset, Append, Config.CopyCount;
  }

  lemma RoomToSend(c: Config, states: seq<State>, i: nat)
    requires c.Ok() && Run(c, states) && i < |states| && states[i].cam == Send
    ensures |states[i].hal| < c.n
  {
    hide Step, Init, Run, Content, Delivered, Capture, Count, Control;
    RunKeepsInv(c, states, i);
    var s := states[i];
    PoolShape(c, s);
    forall f: nat ensures Count(s.hal, f) <= 1 && (f >= c.n || f == s.pos ==> Count(s.hal, f) == 0) {
      assert FrameOk(c, s, f);
    }
    CountBelowAll(s.hal, c.n);
    CountBelowBound(s.hal, c.n, s.pos);
  }

  lemma PoolShape(c: Config, s: State)
    requires Control(c, s)
    ensures |s.frames| == c.n && s.pos < c.n
  {
  }

  // ---------- a frame does arrive ----------

  lemma {:induction false} RunMore(c: Config, states: seq<State>, s: State) returns (more: seq<State>)
    requires c.Ok() && Run(c, states) && states[|states| - 1].pos < |states[|states| - 1].frames|
    requires Step(c, states[|states| - 1], s)
    ensures Run(c, more) && more[|more| - 1] == s
  {
    hide Init, Step;
    more := states + [s];
  }

  /** One JPEG frame of eight bytes in two halves. */
  const SMALL: Config := Config(1, false, true, false, 8, 8, 4, 4, 4, false)

  const FIRST_HALF: Buffer := [0xFF, 0xD8, 0xFF, 0]
  const SECOND_HALF: Buffer := [1, 2, 0xFF, 0xD9]

  function Empty(): Buffer {
    [0, 0, 0, 0, 0, 0, 0, 0]
  }

  function With(f: Frame, hal: seq<nat>, dma: int, state: CamState, cnt: nat, cam: CamPc, capture: CapturePc, log: seq<Dma>): State {
    State([f], hal, [], dma, state, 0, cnt, cam, capture, Waiting, log)
  }

  /** The camera starts a capture. */
  lemma CaptureStarts() returns (states: seq<State>)
    ensures SMALL.Ok() && Run(SMALL, states)
    ensures states[|states| - 1] == With(Frame(true, 0, Empty()), [], 0, ReadBuf, 0, Receive, Away, [Begins(0)])
  {
    var f := Frame(true, 0, Empty());
    var s := With(f, [], -1, Idle, 0, Receive, Away, []);
    states := [s];
    assert Init(SMALL, s);
    var s1 := With(f, [], -1, Idle, 0, Switch(Vsync), Away, []);
    assert CamReceive(s, s1, Vsync);
    states := RunMore(SMALL, states, s1);
    var s2 := With(f, [], -1, Idle, 0, ScanOwn(true), Away, []);
    assert CamSwitch(s1, s2);
    states := RunMore(SMALL, states, s2);
    var s3 := With(f, [], -1, Idle, 0, Start(true), Away, []);
    assert CamScanOwn(s2, s3);
    states := RunMore(SMALL, states, s3);
    var s4 := With(f, [], 0, Idle, 0, Started(true, true), Away, [Begins(0)]);
    assert CamStart(s3, s4, true);
    states := RunMore(SMALL, states, s4);
    var s5 := With(f, [], 0, ReadBuf, 0, Receive, Away, [Begins(0)]);
    assert [f][0 := f.(len := 0)] == [f];
    assert CamStarted(s4, s5);
    states := RunMore(SMALL, states, s5);
  }

  /** The first half arrives and looks like a JPEG image; a VSYNC ends the capture with the second half. */
  lemma CaptureEnds() returns (states: seq<State>)
    ensures SMALL.Ok() && Run(SMALL, states)
    ensures states[|states| - 1] == With(Frame(false, 8, FIRST_HALF + SECOND_HALF), [], -1, ReadBuf, 1, Send, Away, [Begins(0), Copies(0, FIRST_HALF), Copies(0, SECOND_HALF)])
  {
    states := CaptureStarts();
    var f := Frame(true, 0, Empty());
    var s := states[|states| - 1];
    var s1 := With(f, [], 0, ReadBuf, 0, Switch(Eof), Away, [Begins(0)]);
    assert CamReceive(s, s1, Eof);
    states := RunMore(SMALL, states, s1);
    var s2 := With(f, [], 0, ReadBuf, 0, OnEof, Away, [Begins(0)]);
    assert CamSwitch(s1, s2);
    states := RunMore(SMALL, states, s2);
    var g := Append(f, FIRST_HALF);
    FirstHalf(f, g);
    var s3 := With(g, [], 0, ReadBuf, 1, Receive, Away, [Begins(0), Copies(0, FIRST_HALF)]);
    assert [f][0 := g] == [g];
    assert CamEof(SMALL, s2, s3, FIRST_HALF);
    states := RunMore(SMALL, states, s3);
    var s4 := With(g, [], 0, ReadBuf, 1, Switch(Vsync), Away, [Begins(0), Copies(0, FIRST_HALF)]);
    assert CamReceive(s3, s4, Vsync);
    states := RunMore(SMALL, states, s4);
    var s5 := With(g, [], 0, ReadBuf, 1, OnVsync, Away, [Begins(0), Copies(0, FIRST_HALF)]);
    assert CamSwitch(s4, s5);
    states := RunMore(SMALL, states, s5);
    var h := Append(g, SECOND_HALF).(en := false);
    assert h.data == FIRST_HALF + SECOND_HALF;
    var s6 := With(h, [], -1, ReadBuf, 1, Send, Away, [Begins(0), Copies(0, FIRST_HALF), Copies(0, SECOND_HALF)]);
    assert [g][0 := h] == [h];
    assert Finished(SMALL, s5, g, h, SECOND_HALF);
    assert CamVsync(SMALL, s5, s6, SECOND_HALF);
    states := RunMore(SMALL, states, s6);
  }

  lemma FirstHalf(f: Frame, g: Frame)
    requires f == Frame(true, 0, Empty()) && g == Append(f, FIRST_HALF)
    ensures g == Frame(true, 4, FIRST_HALF + [0, 0, 0, 0]) && StartsSoi(g)
  {
    assert f.data[..0] + FIRST_HALF + f.data[4..] == FIRST_HALF + [0, 0, 0, 0];
    assert g.data[..4] == FIRST_HALF;
  }

  /** There is a run in which a frame is handed to the application, so what holds of such frames is about something. */
  lemma FrameArrives() returns (states: seq<State>)
    ensures SMALL.Ok() && Run(SMALL, states) && Handed(states[|states| - 1], 0)
  {
    states := CaptureEnds();
    var h := Frame(false, 8, FIRST_HALF + SECOND_HALF);
    var s := states[|states| - 1];
    var s1 := With(h, [0], -1, ReadBuf, 1, ScanOwn(false), Away, [Begins(0), Copies(0, FIRST_HALF), Copies(0, SECOND_HALF)]);
    assert CamSend(SMALL, s, s1);
    states := RunMore(SMALL, states, s1);
    var s2 := With(h, [0], -1, ReadBuf, 1, ScanOwn(false), Taking, [Begins(0), Copies(0, FIRST_HALF), Copies(0, SECOND_HALF)]);
    assert CaptureCalls(s1, s2);
    states := RunMore(SMALL, states, s2);
    var s3 := With(h, [], -1, ReadBuf, 1, ScanOwn(false), Verify(0), [Begins(0), Copies(0, FIRST_HALF), Copies(0, SECOND_HALF)]);
    assert CaptureTakes(s2, s3);
    states := RunMore(SMALL, states, s3);
    EndsAtSix(h);
    var s4 := With(h, [], -1, ReadBuf, 1, ScanOwn(false), Holding(0), [Begins(0), Copies(0, FIRST_HALF), Copies(0, SECOND_HALF)]);
    assert [h][0 := h.(len := 8)] == [h];
    assert CaptureVerifies(SMALL, s3, s4, 0, []);
    states := RunMore(SMALL, states, s4);
  }

  lemma EndsAtSix(h: Frame)
    requires h == Frame(false, 8, FIRST_HALF + SECOND_HALF)
    ensures EndOffset(SMALL, h) == 6
  {
    var s := h.data[..8];
    assert s == FIRST_HALF + SECOND_HALF;
    assert EoiAt(s, 6);
    LastEoiUnique(s, 6);
  }
}
