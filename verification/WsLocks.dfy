/**
 The two recursive locks of the WebSocket client (the build with a separate TX lock): which locks the client
 task and the senders take, in which order, and why they cannot wait for each other in a circle.
 */
module WsLocks {

  /**
   What a thread still has to do, as far as the locks are concerned.  `Choice` stands for every branch on data,
   states or results; `TakeTx` may time out.
   */
  datatype Code =
    | End
    | TakeLock(next: Code)
    | GiveLock(next: Code)
    | TakeTx(got: Code, timeout: Code)
    | GiveTx(next: Code)
    | SendRaw(next: Code)
    | Abort(next: Code)
    | Choice(left: Code, right: Code)

  // ---------- the code of the client ----------

  /**
   How much a thread does: messages of up to `raws` fragments, handlers that send up to `sends` messages, and
   ERROR handlers that send again up to `depth` deep (0 when they do not send).
   */
  datatype Bounds = Bounds(raws: nat, sends: nat, depth: nat)

  /** The fragment loop of a message: up to `n` raw sends, any of which may fail. */
  function Raws(n: nat, done: Code, failed: Code): Code {
    if n == 0 then done else Choice(done, SendRaw(Choice(failed, Raws(n - 1, done, failed))))
  }

  /**
   `esp_websocket_client_send_with_exact_opcode`, then `k`.  On a failed write the TX lock is given back before
   `lock` is taken; then the ERROR event's handlers run, and the connection is aborted.
   */
  function Send(k: Code, b: Bounds): Code
    decreases b.depth, 1, 0
  {
    Choice(k, TakeTx(Raws(b.raws, GiveTx(k), GiveTx(TakeLock(OnError(Abort(GiveLock(k)), b)))), k))
  }

  /** The ERROR event's handlers, then `k`. */
  function OnError(k: Code, b: Bounds): Code
    decreases b.depth, 0, 0
  {
    if b.depth == 0 then k else Sends(k, b.sends, b.(depth := b.depth - 1))
  }

  /** Up to `m` messages one after the other, then `k`. */
  function Sends(k: Code, m: nat, b: Bounds): Code
    decreases b.depth, 2, m
  {
    if m == 0 then k else Send(Sends(k, m - 1, b), b)
  }

  /** A handler run by the client task, mostly with `lock` held: it may send. */
  function Handler(k: Code, b: Bounds): Code {
    Sends(k, b.sends, b)
  }

  /** A control frame sent by the client task: it gives `lock` back, takes the TX lock, then `lock` again. */
  function Control(k: Code, timeout: Code): Code {
    GiveLock(TakeTx(TakeLock(Choice(GiveTx(k), SendRaw(GiveTx(k)))), TakeLock(timeout)))
  }

  /** The reads of `esp_websocket_client_recv`: up to `n` DATA events, or a failed read and its ERROR event. */
  function Reads(n: nat, ok: Code, fail: Code, b: Bounds): Code {
    if n == 0 then ok else Choice(Handler(fail, b), Handler(Reads(n - 1, ok, fail, b), b))
  }

  /** `esp_websocket_client_recv`: a PING is answered. */
  function Recv(n: nat, ok: Code, fail: Code, b: Bounds): Code {
    Choice(fail, Reads(n, Choice(ok, Control(ok, fail)), fail, b))
  }

  /** After the iteration's lock has been given back: poll, read, or wait for the connection to close. */
  function Poll(n: nat, b: Bounds): Code {
    Choice(Handler(End, b),
    Choice(TakeLock(Handler(Abort(GiveLock(End)), b)),
    Choice(TakeLock(Recv(n, GiveLock(End), Abort(GiveLock(End)), b)),
           TakeLock(Handler(GiveLock(End), b)))))
  }

  /** The states of the connection. */
  function OnInit(n: nat, out: Code, b: Bounds): Code {
    Choice(out, Handler(
    Choice(Handler(Abort(out), b),
           Handler(Choice(out, Recv(n, GiveLock(Handler(TakeLock(out), b)), Abort(out), b)), b)), b))
  }

  function OnConnected(out: Code, b: Bounds): Code {
    var pongCheck := Choice(out, Handler(Abort(out), b));
    Choice(pongCheck, Control(Choice(out, pongCheck), out))
  }

  function OnClosing(out: Code): Code {
    Choice(out, Control(out, out))
  }

  /** One iteration of `esp_websocket_client_task`; `n` and `m` bound the reads of its two receive calls. */
  function Iteration(n: nat, m: nat, b: Bounds): Code {
    var out := GiveLock(Poll(m, b));
    TakeLock(Choice(OnInit(n, out, b), Choice(OnConnected(out, b), Choice(OnClosing(out), out))))
  }

  // ---------- what the code may do with the locks ----------

  /**
   Running `c` with `l` holds of `lock` and `t` of the TX lock is in order: every abort happens with `lock`
   held, every raw send with the TX lock, everything taken is given back, and only the client task ever waits
   for one lock while it holds the other.
   */
  predicate InOrder(c: Code, l: nat, t: nat, task: bool) {
    match c
    case End => l == 0 && t == 0
    case TakeLock(k) => (l == 0 && t > 0 ==> task) && InOrder(k, l + 1, t, task)
    case GiveLock(k) => l > 0 && InOrder(k, l - 1, t, task)
    case TakeTx(got, timeout) => (l > 0 ==> task) && InOrder(got, l, t + 1, task) && InOrder(timeout, l, t, task)
    case GiveTx(k) => t > 0 && InOrder(k, l, t - 1, task)
    case SendRaw(k) => t > 0 && InOrder(k, l, t, task)
    case Abort(k) => l > 0 && InOrder(k, l, t, task)
    case Choice(a, b) => InOrder(a, l, t, task) && InOrder(b, l, t, task)
  }

  /** The fragment loop holds the TX lock from the first fragment to the last. */
  lemma {:induction false} RawsInOrder(n: nat, done: Code, failed: Code, l: nat, t: nat, task: bool)
    requires t > 0 && InOrder(done, l, t, task) && InOrder(failed, l, t, task)
    ensures InOrder(Raws(n, done, failed), l, t, task)
  {
    if n > 0 {
      RawsInOrder(n - 1, done, failed, l, t, task);
      assert InOrder(Choice(failed, Raws(n - 1, done, failed)), l, t, task);
      assert InOrder(SendRaw(Choice(failed, Raws(n - 1, done, failed))), l, t, task);
    }
  }

  /**
   A send of any number of fragments is in order for the client task, whatever it holds and whatever its ERROR
   handlers do, and for another thread that holds nothing and whose ERROR handlers do not send.
   */
  lemma {:induction false} SendInOrder(k: Code, l: nat, t: nat, task: bool, b: Bounds)
    requires InOrder(k, l, t, task) && (l > 0 || t > 0 || b.depth > 0 ==> task)
    ensures InOrder(Send(k, b), l, t, task)
    decreases b.depth, 1, 0
  {
    hide InOrder, Raws, OnError, Sends;
    var abort := Abort(GiveLock(k));
    AbortedInOrder(k, l, t, task);
    OnErrorInOrder(abort, l + 1, t, task, b);
    FailedInOrder(OnError(abort, b), l, t, task);
    GivenInOrder(k, l, t, task);
    RawsInOrder(b.raws, GiveTx(k), GiveTx(TakeLock(OnError(abort, b))), l, t + 1, task);
    TakenTxInOrder(Raws(b.raws, GiveTx(k), GiveTx(TakeLock(OnError(abort, b)))), k, l, t, task);
  }

  lemma {:induction false} OnErrorInOrder(k: Code, l: nat, t: nat, task: bool, b: Bounds)
    requires InOrder(k, l, t, task) && (b.depth > 0 ==> task)
    ensures InOrder(OnError(k, b), l, t, task)
    decreases b.depth, 0, 0
  {
    hide InOrder, Sends;
    if b.depth > 0 {
      SendsInOrder(k, b.sends, l, t, task, b.(depth := b.depth - 1));
    }
  }

  lemma {:induction false} SendsInOrder(k: Code, m: nat, l: nat, t: nat, task: bool, b: Bounds)
    requires InOrder(k, l, t, task) && (l > 0 || t > 0 || b.depth > 0 ==> task)
    ensures InOrder(Sends(k, m, b), l, t, task)
    decreases b.depth, 2, m
  {
    hide InOrder, Send;
    if m > 0 {
      SendsInOrder(k, m - 1, l, t, task, b);
      SendInOrder(Sends(k, m - 1, b), l, t, task, b);
    }
  }

  lemma AbortedInOrder(k: Code, l: nat, t: nat, task: bool)
    requires InOrder(k, l, t, task)
    ensures InOrder(Abort(GiveLock(k)), l + 1, t, task)
  {
    assert InOrder(GiveLock(k), l + 1, t, task);
  }

  lemma FailedInOrder(k: Code, l: nat, t: nat, task: bool)
    requires InOrder(k, l + 1, t, task) && (t > 0 ==> task)
    ensures InOrder(GiveTx(TakeLock(k)), l, t + 1, task)
  {
    assert InOrder(TakeLock(k), l, t, task);
  }

  lemma GivenInOrder(k: Code, l: nat, t: nat, task: bool)
    requires InOrder(k, l, t, task)
    ensures InOrder(GiveTx(k), l, t + 1, task)
  {
  }

  lemma TakenTxInOrder(got: Code, k: Code, l: nat, t: nat, task: bool)
    requires InOrder(got, l, t + 1, task) && InOrder(k, l, t, task) && (l > 0 ==> task)
    ensures InOrder(Choice(k, TakeTx(got, k)), l, t, task)
  {
    assert InOrder(TakeTx(got, k), l, t, task);
  }

  lemma HandlerInOrder(k: Code, l: nat, b: Bounds)
    requires InOrder(k, l, 0, true)
    ensures InOrder(Handler(k, b), l, 0, true)
  {
    SendsInOrder(k, b.sends, l, 0, true, b);
  }

  lemma ControlInOrder(k: Code, timeout: Code)
    requires InOrder(k, 1, 0, true) && InOrder(timeout, 1, 0, true)
    ensures InOrder(Control(k, timeout), 1, 0, true)
  {
    var sent := SendRaw(GiveTx(k));
    assert InOrder(GiveTx(k), 1, 1, true);
    assert InOrder(sent, 1, 1, true);
    assert InOrder(Choice(GiveTx(k), sent), 1, 1, true);
    assert InOrder(TakeLock(Choice(GiveTx(k), sent)), 0, 1, true);
    assert InOrder(TakeLock(timeout), 0, 0, true);
    assert InOrder(TakeTx(TakeLock(Choice(GiveTx(k), sent)), TakeLock(timeout)), 0, 0, true);
  }

  lemma {:induction false} ReadsInOrder(n: nat, ok: Code, fail: Code, b: Bounds)
    requires InOrder(ok, 1, 0, true) && InOrder(fail, 1, 0, true)
    ensures InOrder(Reads(n, ok, fail, b), 1, 0, true)
  {
    if n > 0 {
      hide Handler;
      ReadsInOrder(n - 1, ok, fail, b);
      HandlerInOrder(fail, 1, b);
      HandlerInOrder(Reads(n - 1, ok, fail, b), 1, b);
    }
  }

  lemma RecvInOrder(n: nat, ok: Code, fail: Code, b: Bounds)
    requires InOrder(ok, 1, 0, true) && InOrder(fail, 1, 0, true)
    ensures InOrder(Recv(n, ok, fail, b), 1, 0, true)
  {
    hide Reads, Control;
    ControlInOrder(ok, fail);
    assert InOrder(Choice(ok, Control(ok, fail)), 1, 0, true);
    ReadsInOrder(n, Choice(ok, Control(ok, fail)), fail, b);
  }

  /** The smallest pieces: giving `lock` back, and aborting first. */
  lemma OutInOrder(k: Code)
    requires InOrder(k, 0, 0, true)
    ensures InOrder(GiveLock(k), 1, 0, true) && InOrder(Abort(GiveLock(k)), 1, 0, true)
  {
  }

  lemma TakenInOrder(k: Code)
    requires InOrder(k, 1, 0, true)
    ensures InOrder(TakeLock(k), 0, 0, true)
  {
  }

  lemma EitherInOrder(a: Code, b: Code, l: nat)
    requires InOrder(a, l, 0, true) && InOrder(b, l, 0, true)
    ensures InOrder(Choice(a, b), l, 0, true)
  {
  }

  lemma AbortInOrder(k: Code)
    requires InOrder(k, 1, 0, true)
    ensures InOrder(Abort(k), 1, 0, true)
  {
  }

  lemma PollInOrder(n: nat, b: Bounds)
    ensures InOrder(Poll(n, b), 0, 0, true)
  {
    hide InOrder, Recv, Handler;
    EndInOrder();
    HandlerInOrder(End, 0, b);
    OutInOrder(End);
    var aborted := Abort(GiveLock(End));
    HandlerInOrder(aborted, 1, b);
    TakenInOrder(Handler(aborted, b));
    RecvInOrder(n, GiveLock(End), aborted, b);
    TakenInOrder(Recv(n, GiveLock(End), aborted, b));
    HandlerInOrder(GiveLock(End), 1, b);
    TakenInOrder(Handler(GiveLock(End), b));
    var received := Choice(TakeLock(Recv(n, GiveLock(End), aborted, b)), TakeLock(Handler(GiveLock(End), b)));
    EitherInOrder(TakeLock(Recv(n, GiveLock(End), aborted, b)), TakeLock(Handler(GiveLock(End), b)), 0);
    EitherInOrder(TakeLock(Handler(aborted, b)), received, 0);
    EitherInOrder(Handler(End, b), Choice(TakeLock(Handler(aborted, b)), received), 0);
  }

  lemma EndInOrder()
    ensures InOrder(End, 0, 0, true)
  {
  }

  lemma OnInitInOrder(n: nat, out: Code, b: Bounds)
    requires InOrder(out, 1, 0, true)
    ensures InOrder(OnInit(n, out, b), 1, 0, true)
  {
    hide InOrder, Recv, Handler;
    AbortInOrder(out);
    HandlerInOrder(Abort(out), 1, b);
    TakenInOrder(out);
    HandlerInOrder(TakeLock(out), 0, b);
    OutInOrder(Handler(TakeLock(out), b));
    var received := Recv(n, GiveLock(Handler(TakeLock(out), b)), Abort(out), b);
    RecvInOrder(n, GiveLock(Handler(TakeLock(out), b)), Abort(out), b);
    EitherInOrder(out, received, 1);
    HandlerInOrder(Choice(out, received), 1, b);
    EitherInOrder(Handler(Abort(out), b), Handler(Choice(out, received), b), 1);
    HandlerInOrder(Choice(Handler(Abort(out), b), Handler(Choice(out, received), b)), 1, b);
    EitherInOrder(out, Handler(Choice(Handler(Abort(out), b), Handler(Choice(out, received), b)), b), 1);
  }

  lemma OnConnectedInOrder(out: Code, b: Bounds)
    requires InOrder(out, 1, 0, true)
    ensures InOrder(OnConnected(out, b), 1, 0, true)
  {
    hide InOrder, Control, Handler;
    AbortInOrder(out);
    HandlerInOrder(Abort(out), 1, b);
    var pongCheck := Choice(out, Handler(Abort(out), b));
    EitherInOrder(out, Handler(Abort(out), b), 1);
    EitherInOrder(out, pongCheck, 1);
    ControlInOrder(Choice(out, pongCheck), out);
    EitherInOrder(pongCheck, Control(Choice(out, pongCheck), out), 1);
  }

  /** Every iteration of the client task is in order, and so ends holding nothing. */
  lemma IterationInOrder(n: nat, m: nat, b: Bounds)
    ensures InOrder(Iteration(n, m, b), 0, 0, true)
  {
    hide InOrder, Control, Poll, OnInit, OnConnected;
    var out := GiveLock(Poll(m, b));
    PollInOrder(m, b);
    OutInOrder(Poll(m, b));
    OnInitInOrder(n, out, b);
    OnConnectedInOrder(out, b);
    ControlInOrder(out, out);
    EitherInOrder(out, Control(out, out), 1);
    EitherInOrder(OnClosing(out), out, 1);
    EitherInOrder(OnConnected(out, b), Choice(OnClosing(out), out), 1);
    EitherInOrder(OnInit(n, out, b), Choice(OnConnected(out, b), Choice(OnClosing(out), out)), 1);
    TakenInOrder(Choice(OnInit(n, out, b), Choice(OnConnected(out, b), Choice(OnClosing(out), out))));
  }

  // ---------- the threads ----------

  /** A recursive mutex: free, or held by a thread a number of times. */
  datatype Mutex = Free | Held(owner: nat, depth: nat)

  function Holds(m: Mutex, i: nat): nat {
    if m.Held? && m.owner == i then m.depth else 0
  }

  predicate CanTake(m: Mutex, i: nat) {
    m.Free? || m.owner == i
  }

  function Taken(m: Mutex, i: nat): Mutex {
    Held(i, Holds(m, i) + 1)
  }

  function Given(m: Mutex): Mutex
    requires m.Held?
  {
    if m.depth <= 1 then Free else Held(m.owner, m.depth - 1)
  }

  /** Thread 0 is the client task; the others send. */
  datatype State = State(lock: Mutex, tx: Mutex, threads: seq<Code>)

  const TASK: nat := 0

  /**
   What a thread that is done begins next: an iteration of the task, or a send.  Numbers of reads, fragments and
   messages are arbitrary; `depth` bounds the ERROR handlers of the senders alone.
   */
  ghost predicate Begins(i: nat, c: Code, depth: nat) {
    if i == TASK then exists n, m, b :: c == Iteration(n, m, b) else exists b :: c == Send(End, b) && b.depth <= depth
  }

  /** One step of thread `i`; a wait for a lock that another thread holds is no step. */
  ghost predicate Step(s: State, s': State, i: nat, depth: nat)
    requires i < |s.threads|
  {
    match s.threads[i]
    case End => exists c :: Begins(i, c, depth) && s' == s.(threads := s.threads[i := c])
    case TakeLock(k) => CanTake(s.lock, i) && s' == s.(lock := Taken(s.lock, i), threads := s.threads[i := k])
    case GiveLock(k) => s.lock.Held? && s.lock.owner == i && s' == s.(lock := Given(s.lock), threads := s.threads[i := k])
    case TakeTx(got, timeout) =>
      || (CanTake(s.tx, i) && s' == s.(tx := Taken(s.tx, i), threads := s.threads[i := got]))
      || s' == s.(threads := s.threads[i := timeout])
    case GiveTx(k) => s.tx.Held? && s.tx.owner == i && s' == s.(tx := Given(s.tx), threads := s.threads[i := k])
    case SendRaw(k) => s' == s.(threads := s.threads[i := k])
    case Abort(k) => s' == s.(threads := s.threads[i := k])
    case Choice(a, b) => s' == s.(threads := s.threads[i := a]) || s' == s.(threads := s.threads[i := b])
  }

  ghost predicate Init(s: State) {
    s.lock == Free && s.tx == Free && forall i :: 0 <= i < |s.threads| ==> s.threads[i] == End
  }

  ghost predicate MutexOk(m: Mutex, n: nat) {
    m.Held? ==> m.depth > 0 && m.owner < n
  }

  /** Every thread is in order with the locks it holds. */
  ghost predicate Inv(s: State) {
    && MutexOk(s.lock, |s.threads|) && MutexOk(s.tx, |s.threads|)
    && forall i :: 0 <= i < |s.threads| ==> InOrder(s.threads[i], Holds(s.lock, i), Holds(s.tx, i), i == TASK)
  }

  lemma BeginsInOrder(i: nat, c: Code)
    requires Begins(i, c, 0)
    ensures InOrder(c, 0, 0, i == TASK)
  {
    hide Iteration, Send;
    if i == TASK {
      var n, m, b :| c == Iteration(n, m, b);
      IterationInOrder(n, m, b);
    } else {
      var b :| c == Send(End, b) && b.depth <= 0;
      SenderEndInOrder();
      SendInOrder(End, 0, 0, false, b);
    }
  }

  lemma SenderEndInOrder()
    ensures InOrder(End, 0, 0, false)
  {
  }

  /** Every step keeps every thread in order. */
  lemma StepKeepsInv(s: State, s': State, i: nat)
    requires Inv(s) && i < |s.threads| && Step(s, s', i, 0)
    ensures Inv(s')
  {
    hide Begins, Iteration, Send;
    if s.threads[i] == End {
      var c :| Begins(i, c, 0) && s' == s.(threads := s.threads[i := c]);
      BeginsInOrder(i, c);
    }
    assert InOrder(s.threads[i], Holds(s.lock, i), Holds(s.tx, i), i == TASK);
    forall j | 0 <= j < |s'.threads| ensures InOrder(s'.threads[j], Holds(s'.lock, j), Holds(s'.tx, j), j == TASK) {
      if j != i {
        assert InOrder(s.threads[j], Holds(s.lock, j), Holds(s.tx, j), j == TASK);
        assert Holds(s'.lock, j) == Holds(s.lock, j) && Holds(s'.tx, j) == Holds(s.tx, j);
      }
    }
  }

  /** A run: the threads take steps in any order. */
  ghost predicate Run(states: seq<State>, who: seq<nat>, depth: nat) {
    && |states| == |who| + 1 && Init(states[0])
    && forall i :: 0 <= i < |who| ==> who[i] < |states[i].threads| && Step(states[i], states[i + 1], who[i], depth)
  }

  lemma {:induction false} RunKeepsInv(states: seq<State>, who: seq<nat>, i: nat)
    requires Run(states, who, 0) && i < |states|
    ensures Inv(states[i])
  {
    hide Step, InOrder;
    if i == 0 {
      StartInOrder(states[0]);
    } else {
      RunKeepsInv(states, who, i - 1);
      StepKeepsInv(states[i - 1], states[i], who[i - 1]);
    }
  }

  lemma StartInOrder(s: State)
    requires Init(s)
    ensures Inv(s)
  {
  }

  /** Thread `i` waits for a lock that `j` holds. */
  predicate WaitsFor(s: State, i: nat, j: nat)
    requires i < |s.threads|
  {
    || (s.threads[i].TakeLock? && s.lock.Held? && s.lock.owner == j && j != i)
    || (s.threads[i].TakeTx? && s.tx.Held? && s.tx.owner == j && j != i)
  }

  /**
   The lock discipline in every run where ERROR handlers of senders do not send: aborts happen with `lock`
   held and raw sends with the TX lock, a thread between iterations holds neither, and no sender waits for
   `lock` while it holds the TX lock, or the other way round.
   */
  lemma LockDiscipline(states: seq<State>, who: seq<nat>, i: nat, t: nat)
    requires Run(states, who, 0) && i < |states| && t < |states[i].threads|
    ensures var s := states[i];
            && (s.threads[t].Abort? ==> Holds(s.lock, t) > 0)
            && (s.threads[t].SendRaw? ==> Holds(s.tx, t) > 0)
            && (s.threads[t].End? ==> Holds(s.lock, t) == 0 && Holds(s.tx, t) == 0)
            && (t != TASK && s.threads[t].TakeLock? && Holds(s.lock, t) == 0 ==> Holds(s.tx, t) == 0)
            && (t != TASK && s.threads[t].TakeTx? ==> Holds(s.lock, t) == 0)
  {
    hide Step, Run;
    RunKeepsInv(states, who, i);
    assert InOrder(states[i].threads[t], Holds(states[i].lock, t), Holds(states[i].tx, t), t == TASK);
  }

  /**
   Then no chain of waits is longer than two: whoever the holder waits for can go on.  So there is no circle
   of waiting threads, of any length.
   */
  lemma NoWaitCycle(states: seq<State>, who: seq<nat>, i: nat, a: nat, b: nat, c: nat, d: nat)
    requires Run(states, who, 0) && i < |states|
    requires var n := |states[i].threads|; a < n && b < n && c < n && d < n
    requires WaitsFor(states[i], a, b) && WaitsFor(states[i], b, c)
    ensures !WaitsFor(states[i], c, d)
  {
    hide Step, Run;
    RunKeepsInv(states, who, i);
    var s := states[i];
    assert InOrder(s.threads[b], Holds(s.lock, b), Holds(s.tx, b), b == TASK);
    assert InOrder(s.threads[c], Holds(s.lock, c), Holds(s.tx, c), c == TASK);
  }

  // ---------- without the proviso ----------

  lemma RunMore(states: seq<State>, who: seq<nat>, depth: nat, s: State, i: nat)
    requires Run(states, who, depth)
    requires i < |states[|who|].threads| && Step(states[|who|], s, i, depth)
    ensures Run(states + [s], who + [i], depth)
  {
    hide Step, Init;
  }

  /** A run grown step by step; `At` is its last state. */
  datatype Trace = Trace(states: seq<State>, who: seq<nat>) {
    ghost predicate Ok(depth: nat) {
      Run(states, who, depth)
    }

    ghost function At(): State
      requires |states| > 0
    {
      states[|states| - 1]
    }
  }

  /** Thread `i` takes a step to code `c`, with the mutexes as they are then. */
  lemma Goes(t: Trace, depth: nat, i: nat, c: Code, lock: Mutex, tx: Mutex) returns (u: Trace)
    requires t.Ok(depth) && |t.states| > 0 && i < |t.At().threads|
    requires Step(t.At(), State(lock, tx, t.At().threads[i := c]), i, depth)
    ensures u.Ok(depth) && |u.states| > 0 && u.At() == State(lock, tx, t.At().threads[i := c])
  {
    hide Step;
    u := Trace(t.states + [State(lock, tx, t.At().threads[i := c])], t.who + [i]);
    RunMore(t.states, t.who, depth, State(lock, tx, t.At().threads[i := c]), i);
  }

  /** Messages of one fragment; one message to a handler; senders' ERROR handlers send once. */
  const ONCE: Bounds := Bounds(1, 1, 1)

  /** A sender whose write has failed, waiting for `lock`. */
  function FailedSend(): Code {
    TakeLock(OnError(Abort(GiveLock(End)), ONCE))
  }

  /** A sender that holds the TX lock and is about to write. */
  lemma SenderStarts() returns (t: Trace)
    ensures t.Ok(1) && |t.states| > 0
    ensures t.At() == State(Free, Held(1, 1), [End, Choice(GiveTx(End), SendRaw(Choice(GiveTx(FailedSend()), GiveTx(End))))])
  {
    hide OnError, FailedSend;
    var s := State(Free, Free, [End, End]);
    t := Trace([s], []);
    var got := Choice(GiveTx(End), SendRaw(Choice(GiveTx(FailedSend()), GiveTx(End))));
    SendOnce();
    assert Begins(1, Send(End, ONCE), 1);
    t := Goes(t, 1, 1, Send(End, ONCE), Free, Free);
    t := Goes(t, 1, 1, TakeTx(got, End), Free, Free);
    t := Goes(t, 1, 1, got, Free, Held(1, 1));
  }

  lemma SendOnce()
    ensures Send(End, ONCE) == Choice(End, TakeTx(Choice(GiveTx(End), SendRaw(Choice(GiveTx(FailedSend()), GiveTx(End)))), End))
  {
    hide OnError;
    OneRaw(GiveTx(End), GiveTx(FailedSend()));
  }

  lemma SenderFails() returns (t: Trace)
    ensures t.Ok(1) && |t.states| > 0 && t.At() == State(Free, Free, [End, FailedSend()])
  {
    hide OnError, Send;
    t := SenderStarts();
    var failed := GiveTx(FailedSend());
    var raw := Choice(failed, GiveTx(End));
    t := Goes(t, 1, 1, SendRaw(raw), Free, Held(1, 1));
    t := Goes(t, 1, 1, raw, Free, Held(1, 1));
    t := Goes(t, 1, 1, failed, Free, Held(1, 1));
    t := Goes(t, 1, 1, FailedSend(), Free, Free);
    assert t.At().threads == [End, FailedSend()];
  }

  lemma OneRaw(done: Code, failed: Code)
    ensures Raws(1, done, failed) == Choice(done, SendRaw(Choice(failed, done)))
  {
    assert Raws(0, done, failed) == done;
  }

  /** The client task sending a PING: it holds the TX lock and is about to take `lock` again. */
  lemma TaskPings() returns (t: Trace, k: Code)
    ensures t.Ok(1) && |t.states| > 0 && t.At() == State(Free, Held(0, 1), [TakeLock(k), FailedSend()])
  {
    hide Poll, Recv, Handler, Send, FailedSend, OnInit, OnClosing;
    t := SenderFails();
    var out := GiveLock(Poll(0, ONCE));
    var pongCheck := Choice(out, Handler(Abort(out), ONCE));
    var connected := OnConnected(out, ONCE);
    var control := Control(Choice(out, pongCheck), out);
    var rest := Choice(connected, Choice(OnClosing(out), out));
    assert connected == Choice(pongCheck, control);
    assert Iteration(0, 0, ONCE) == TakeLock(Choice(OnInit(0, out, ONCE), rest));
    assert Begins(0, Iteration(0, 0, ONCE), 1);
    t := Goes(t, 1, 0, Iteration(0, 0, ONCE), Free, Free);
    t := Goes(t, 1, 0, Choice(OnInit(0, out, ONCE), rest), Held(0, 1), Free);
    t := Goes(t, 1, 0, rest, Held(0, 1), Free);
    t := Goes(t, 1, 0, connected, Held(0, 1), Free);
    t := Goes(t, 1, 0, control, Held(0, 1), Free);
    var next := Choice(out, pongCheck);
    k := Choice(GiveTx(next), SendRaw(GiveTx(next)));
    assert control == GiveLock(TakeTx(TakeLock(k), TakeLock(out)));
    t := Goes(t, 1, 0, TakeTx(TakeLock(k), TakeLock(out)), Free, Free);
    t := Goes(t, 1, 0, TakeLock(k), Free, Held(0, 1));
    assert t.At().threads == [TakeLock(k), FailedSend()];
  }

  /** What a failed sender does once it has `lock`: its ERROR handler sends, which starts with the TX lock. */
  lemma ErrorHandlerSends(k: Code) returns (got: Code)
    ensures OnError(k, ONCE) == Choice(k, TakeTx(got, k))
  {
    var b := Bounds(1, 1, 0);
    got := Raws(1, GiveTx(k), GiveTx(TakeLock(OnError(Abort(GiveLock(k)), b))));
    assert Sends(k, 0, b) == k;
    assert Sends(k, 1, b) == Send(Sends(k, 0, b), b);
  }

  /**
   The proviso is needed: when a sender's ERROR handler sends, there is a run that ends with the client task
   waiting for `lock` and the sender, which holds it, waiting for the task's TX lock.
   */
  lemma SendingErrorHandlerDeadlocks() returns (t: Trace)
    ensures t.Ok(1) && |t.states| > 0 && |t.At().threads| == 2
    ensures WaitsFor(t.At(), 0, 1) && WaitsFor(t.At(), 1, 0)
  {
    hide OnError, Raws;
    var k;
    t, k := TaskPings();
    var abort := Abort(GiveLock(End));
    var got := ErrorHandlerSends(abort);
    assert t.At().threads[1] == TakeLock(Choice(abort, TakeTx(got, abort)));
    t := Goes(t, 1, 1, Choice(abort, TakeTx(got, abort)), Held(1, 1), Held(0, 1));
    t := Goes(t, 1, 1, TakeTx(got, abort), Held(1, 1), Held(0, 1));
  }
}
