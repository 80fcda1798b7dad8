/**
 * The asynchronous log writer as a system of interleaved steps (common/logger/async_writer.go): any number of
 * callers of Write, Flush and Close, a bounded queue, and the worker that hands payloads to the underlying
 * writer. An action names who moves; an action that cannot be taken changes nothing.
 */
module AsyncLog {
  import opened Wrappers
  import opened Bytes

  const QUEUE_SIZE := 1024

  type Pid = nat

  datatype Call = Write(p: bytes) | Flush | Close

  /** What a caller puts on the queue. */
  datatype Item = Data(pid: Pid, p: bytes) | Barrier(pid: Pid)

  /**
   * Where a caller stands. Close enters its once-guard, flushes (Check to Sync), closes the queue (Shut),
   * waits for the worker (Join) and closes the underlying writer.
   */
  datatype Pc =
    | Enter | Check | Send | Await | Sync | Shut | Join | CloseWriter
    | Returned(n: nat, closedError: bool, acked: bool)

  /** `since` is how much had been enqueued when the call started, `at` where its own item went. */
  datatype Thread = Thread(call: Call, pc: Pc, since: nat, at: Option<nat>)

  datatype Once = Idle | Busy(pid: Pid) | Finished

  datatype Worker = Waiting | Holding(item: Item) | Stopped

  /** `sent` records all items ever enqueued and `taken` how many the worker has received. */
  datatype State = State(
    threads: map<Pid, Thread>, queue: seq<Item>, closed: bool, once: Once, worker: Worker, acks: set<Pid>,
    handed: seq<bytes>, writerClosed: bool, sent: seq<Item>, taken: nat)

  datatype Action = Start(pid: Pid, call: Call) | Move(pid: Pid) | Work

  const INITIAL := State(map[], [], false, Idle, Waiting, {}, [], false, [], 0)

  // ---------------------------------------------------------------- steps

  function ItemOf(pid: Pid, call: Call): Item {
    if call.Write? then Data(pid, call.p) else Barrier(pid)
  }

  function Goto(s: State, pid: Pid, pc: Pc): State
    requires pid in s.threads
  {
    s.(threads := s.threads[pid := s.threads[pid].(pc := pc)])
  }

  /** Where a call goes on when its flush or send has come to nothing. */
  function GivenUp(call: Call, closedError: bool): Pc {
    if call.Close? then Shut else Returned(0, closedError && call.Write?, false)
  }

  function Enqueue(s: State, pid: Pid): State
    requires pid in s.threads
  {
    var t := s.threads[pid];
    var item := ItemOf(pid, t.call);
    var next := if t.call.Write? then Returned(|t.call.p|, false, false) else Await;
    s.(queue := s.queue + [item], sent := s.sent + [item],
       threads := s.threads[pid := t.(pc := next, at := Some(|s.sent|))])
  }

  function MoveThread(s: State, pid: Pid): State
    requires pid in s.threads
  {
    var t := s.threads[pid];
    match t.pc
    case Enter =>
      if !t.call.Close? then Goto(s, pid, Check)
      else if s.once == Idle then Goto(s, pid, Check).(once := Busy(pid))
      else if s.once == Finished then Goto(s, pid, Returned(0, false, false))
      else s
    case Check => if s.closed then Goto(s, pid, GivenUp(t.call, true)) else Goto(s, pid, Send)
    case Send =>
      // sending on the closed queue panics, and the panic is swallowed
      if s.closed then Goto(s, pid, GivenUp(t.call, false))
      else if |s.queue| < QUEUE_SIZE then Enqueue(s, pid)
      else s
    case Await => if pid in s.acks then Goto(s, pid, Sync) else s
    case Sync => Goto(s, pid, if t.call.Close? then Shut else Returned(0, false, true))
    case Shut => Goto(s, pid, Join).(closed := true)
    case Join => if s.worker == Stopped then Goto(s, pid, CloseWriter) else s
    case CloseWriter => Goto(s, pid, Returned(0, false, false)).(once := Finished, writerClosed := true)
    case Returned(_, _, _) => s
  }

  function MoveWorker(s: State): State {
    match s.worker
    case Waiting =>
      if s.queue != [] then s.(worker := Holding(s.queue[0]), queue := s.queue[1..], taken := s.taken + 1)
      else if s.closed then s.(worker := Stopped)
      else s
    case Holding(item) =>
      var idle := s.(worker := Waiting);
      if item.Barrier? then idle.(acks := s.acks + {item.pid})
      else if |item.p| > 0 then idle.(handed := s.handed + [item.p])
      else idle
    case Stopped => s
  }

  function Step(s: State, a: Action): State {
    match a
    case Start(pid, call) =>
      if pid in s.threads then s
      else s.(threads := s.threads[pid := Thread(call, Enter, |s.sent|, None)])
    case Move(pid) => if pid in s.threads then MoveThread(s, pid) else s
    case Work => MoveWorker(s)
  }

  function Run(s: State, actions: seq<Action>): State
    decreases |actions|
  {
    if actions == [] then s else Run(Step(s, actions[0]), actions[1..])
  }

  // ---------------------------------------------------------------- what every step keeps

  /** How many items the worker has dealt with. */
  function Done(s: State): int {
    s.taken - (if s.worker.Holding? then 1 else 0)
  }

  /** The payloads among items that are not empty, in order. */
  function Payloads(items: seq<Item>): seq<bytes> {
    if items == [] then []
    else
      var last := items[|items| - 1];
      Payloads(items[..|items| - 1]) + (if last.Data? && |last.p| > 0 then [last.p] else [])
  }

  ghost predicate QueueOk(s: State) {
    && 0 <= Done(s) && s.taken <= |s.sent| && s.queue == s.sent[s.taken..] && |s.queue| <= QUEUE_SIZE
    && (s.worker.Holding? ==> s.worker.item == s.sent[s.taken - 1])
    && (s.worker == Stopped ==> s.closed && s.queue == [])
    && s.handed == Payloads(s.sent[..Done(s)])
  }

  /** Items and callers point at each other: nobody sends twice. */
  ghost predicate SentOk(s: State) {
    && (forall i :: 0 <= i < |s.sent| ==> s.sent[i].pid in s.threads && s.threads[s.sent[i].pid].at == Some(i))
    && forall pid :: pid in s.threads && s.threads[pid].at.Some? ==>
         var t := s.threads[pid];
         t.since <= t.at.value < |s.sent| && s.sent[t.at.value] == ItemOf(pid, t.call)
  }

  /** Exactly the barriers that the worker has dealt with are acknowledged. */
  ghost predicate AcksOk(s: State) {
    && (forall pid :: pid in s.acks ==> pid in s.threads && s.threads[pid].at.Some? && !s.threads[pid].call.Write?)
    && forall pid :: pid in s.threads && s.threads[pid].at.Some? && !s.threads[pid].call.Write? ==>
         (pid in s.acks <==> s.threads[pid].at.value < Done(s))
  }

  ghost predicate ThreadOk(s: State, pid: Pid, t: Thread) {
    && t.since <= |s.sent|
    && match t.pc
       case Enter => t.at.None?
       case Check => t.at.None?
       case Send => t.at.None?
       case Await => t.at.Some? && !t.call.Write?
       case Sync => t.at.Some? && !t.call.Write? && pid in s.acks
       case Shut => t.call.Close?
       case Join => t.call.Close? && s.closed
       case CloseWriter => t.call.Close? && s.closed && s.worker == Stopped
       case Returned(n, closedError, acked) =>
         match t.call
         case Write(p) => if t.at.Some? then n == |p| && !closedError else n == 0 && s.closed
         case Flush => n == 0 && !closedError && (if acked then t.at.Some? && pid in s.acks else s.closed)
         case Close => n == 0 && s.once == Finished
  }

  ghost predicate ThreadsOk(s: State) {
    forall pid :: pid in s.threads ==> ThreadOk(s, pid, s.threads[pid])
  }

  /** A Close that is past its once-guard and has not returned. */
  predicate Active(t: Thread) {
    t.call.Close? && t.pc != Enter && !t.pc.Returned?
  }

  /** An active Close that has closed the queue. */
  predicate HasShut(t: Thread) {
    t.pc == Join || t.pc == CloseWriter
  }

  /** One Close at a time is active, and the queue is closed exactly from its Shut on. */
  ghost predicate OnceOk(s: State) {
    && (forall pid :: pid in s.threads ==> (Active(s.threads[pid]) <==> s.once == Busy(pid)))
    && (s.once.Busy? ==> s.once.pid in s.threads && (s.closed <==> HasShut(s.threads[s.once.pid])))
    && (s.once == Idle ==> !s.closed)
    && (s.once == Finished ==> s.closed && s.worker == Stopped)
    && (s.writerClosed <==> s.once == Finished)
  }

  ghost predicate Inv(s: State) {
    QueueOk(s) && SentOk(s) && AcksOk(s) && ThreadsOk(s) && OnceOk(s)
  }

  lemma PayloadsSnoc(items: seq<Item>, item: Item)
    ensures Payloads(items + [item]) == Payloads(items) + (if item.Data? && |item.p| > 0 then [item.p] else [])
  {
    assert (items + [item])[..|items|] == items;
  }

  predicate CanEnqueue(s: State, pid: Pid) {
    pid in s.threads && s.threads[pid].pc == Send && !s.closed && |s.queue| < QUEUE_SIZE
  }

  lemma EnqueueKeepsQueue(s: State, pid: Pid)
    requires QueueOk(s) && CanEnqueue(s, pid)
    ensures QueueOk(Enqueue(s, pid))
  {
    hide Payloads, ItemOf;
    var d := Enqueue(s, pid);
    assert d.sent[..Done(d)] == s.sent[..Done(s)];
    assert d.sent[d.taken..] == s.sent[s.taken..] + [d.sent[|s.sent|]];
  }

  lemma EnqueueKeepsSent(s: State, pid: Pid)
    requires SentOk(s) && CanEnqueue(s, pid) && ThreadOk(s, pid, s.threads[pid])
    ensures SentOk(Enqueue(s, pid))
  {
    assert forall i :: 0 <= i < |s.sent| ==> s.sent[i].pid != pid;
  }

  lemma EnqueueKeepsAcks(s: State, pid: Pid)
    requires QueueOk(s) && AcksOk(s) && CanEnqueue(s, pid) && ThreadOk(s, pid, s.threads[pid])
    ensures AcksOk(Enqueue(s, pid))
  {
    hide Payloads, ItemOf;
  }

  lemma EnqueueKeepsThreads(s: State, pid: Pid)
    requires ThreadsOk(s) && CanEnqueue(s, pid)
    ensures ThreadsOk(Enqueue(s, pid))
  {
    hide ItemOf;
    var d := Enqueue(s, pid);
    assert ThreadOk(s, pid, s.threads[pid]);
    forall q | q in d.threads
      ensures ThreadOk(d, q, d.threads[q])
    {
      assert ThreadOk(s, q, s.threads[q]);
    }
  }

  lemma EnqueueKeepsOnce(s: State, pid: Pid)
    requires OnceOk(s) && CanEnqueue(s, pid)
    ensures OnceOk(Enqueue(s, pid))
  {
    hide ItemOf;
  }

  lemma EnqueueKeepsInv(s: State, pid: Pid)
    requires Inv(s) && CanEnqueue(s, pid)
    ensures Inv(Enqueue(s, pid))
  {
    hide QueueOk, SentOk, AcksOk, OnceOk, Enqueue;
    assert ThreadOk(s, pid, s.threads[pid]);
    EnqueueKeepsQueue(s, pid);
    EnqueueKeepsSent(s, pid);
    EnqueueKeepsAcks(s, pid);
    EnqueueKeepsThreads(s, pid);
    EnqueueKeepsOnce(s, pid);
  }

  /** A move that enqueues nothing changes the caller's position and perhaps the guards, nothing else. */
  ghost predicate OnlyMoves(s: State, d: State, pid: Pid) {
    && pid in s.threads && d.threads.Keys == s.threads.Keys
    && (forall q :: q in s.threads && q != pid ==> d.threads[q] == s.threads[q])
    && d.threads[pid] == s.threads[pid].(pc := d.threads[pid].pc)
    && d.queue == s.queue && d.sent == s.sent && d.taken == s.taken && d.worker == s.worker && d.acks == s.acks
    && d.handed == s.handed && (s.closed ==> d.closed)
  }

  lemma MovesOnly(s: State, pid: Pid)
    requires pid in s.threads && !CanEnqueue(s, pid)
    ensures OnlyMoves(s, MoveThread(s, pid), pid)
  {
    hide OnlyMoves;
    var d := MoveThread(s, pid);
    GotoOnlyMoves(s, pid, d.threads[pid].pc, d.closed, d.once, d.writerClosed);
    assert s.threads[pid := s.threads[pid].(pc := s.threads[pid].pc)] == s.threads;
  }

  lemma GotoOnlyMoves(s: State, pid: Pid, pc: Pc, closed: bool, once: Once, writerClosed: bool)
    requires pid in s.threads && (s.closed ==> closed)
    ensures OnlyMoves(s, Goto(s, pid, pc).(closed := closed, once := once, writerClosed := writerClosed), pid)
  {
  }

  lemma OnlyMovesKeepsSent(s: State, d: State, pid: Pid)
    requires OnlyMoves(s, d, pid) && QueueOk(s) && SentOk(s) && AcksOk(s)
    ensures QueueOk(d) && SentOk(d) && AcksOk(d)
  {
    hide Payloads, ItemOf;
  }

  lemma MoveKeepsThreads(s: State, pid: Pid)
    requires Inv(s) && pid in s.threads && OnlyMoves(s, MoveThread(s, pid), pid)
    ensures ThreadsOk(MoveThread(s, pid))
  {
    hide Payloads, ItemOf, SentOk, AcksOk;
    var d := MoveThread(s, pid);
    assert ThreadOk(s, pid, s.threads[pid]);
    assert ThreadOk(d, pid, d.threads[pid]);
    forall q | q in d.threads && q != pid
      ensures ThreadOk(d, q, d.threads[q])
    {
      hide MoveThread, QueueOk;
      assert ThreadOk(s, q, s.threads[q]);
      OnceStaysFinished(s, pid);
    }
  }

  lemma OnceStaysFinished(s: State, pid: Pid)
    requires pid in s.threads && OnceOk(s)
    ensures s.once == Finished ==> MoveThread(s, pid).once == Finished
  {
  }

  lemma MoveKeepsOnce(s: State, pid: Pid)
    requires Inv(s) && pid in s.threads && OnlyMoves(s, MoveThread(s, pid), pid)
    ensures OnceOk(MoveThread(s, pid))
  {
    assert ThreadOk(s, pid, s.threads[pid]);
    if s.threads[pid].call.Close? {
      CloseMoveKeepsOnce(s, pid);
    } else {
      OtherMoveKeepsOnce(s, pid);
    }
  }

  lemma CloseMoveKeepsOnce(s: State, pid: Pid)
    requires OnceOk(s) && pid in s.threads && s.threads[pid].call.Close? && ThreadOk(s, pid, s.threads[pid])
    requires OnlyMoves(s, MoveThread(s, pid), pid)
    ensures OnceOk(MoveThread(s, pid))
  {
    hide ItemOf, OnlyMoves;
  }

  lemma OtherMoveKeepsOnce(s: State, pid: Pid)
    requires OnceOk(s) && pid in s.threads && !s.threads[pid].call.Close? && ThreadOk(s, pid, s.threads[pid])
    requires OnlyMoves(s, MoveThread(s, pid), pid)
    ensures OnceOk(MoveThread(s, pid))
  {
    hide ItemOf, OnlyMoves;
  }

  lemma MoveKeepsInv(s: State, pid: Pid)
    requires Inv(s) && pid in s.threads
    ensures Inv(MoveThread(s, pid))
  {
    hide Payloads, ItemOf, SentOk, AcksOk, QueueOk, ThreadsOk, OnceOk, OnlyMoves;
    if CanEnqueue(s, pid) {
      EnqueueKeepsInv(s, pid);
    } else {
      MovesOnly(s, pid);
      OnlyMovesKeepsSent(s, MoveThread(s, pid), pid);
      MoveKeepsThreads(s, pid);
      MoveKeepsOnce(s, pid);
    }
  }

  lemma HeldBarrier(s: State)
    requires Inv(s) && s.worker.Holding?
    ensures var item := s.worker.item;
      && item.pid in s.threads && s.threads[item.pid].at == Some(Done(s))
      && (item.Barrier? <==> !s.threads[item.pid].call.Write?)
  {
    hide Payloads;
    var i := Done(s);
    assert s.sent[i] == s.worker.item;
  }

  lemma WorkKeepsAcks(s: State)
    requires Inv(s)
    ensures AcksOk(MoveWorker(s))
  {
    hide Payloads, QueueOk, SentOk, ThreadsOk, OnceOk, ItemOf;
    var d := MoveWorker(s);
    if s.worker.Holding? {
      HeldBarrier(s);
      forall pid | pid in d.threads && d.threads[pid].at.Some? && !d.threads[pid].call.Write?
        ensures pid in d.acks <==> d.threads[pid].at.value < Done(d)
      {
        HeldIsOwn(s, pid);
      }
    }
  }

  /** The item in the worker's hands is a caller's barrier exactly when it stands where that caller's went. */
  lemma HeldIsOwn(s: State, pid: Pid)
    requires Inv(s) && s.worker.Holding?
    requires pid in s.threads && s.threads[pid].at.Some? && !s.threads[pid].call.Write?
    ensures s.threads[pid].at.value == Done(s) <==> s.worker.item == Barrier(pid)
  {
    hide Payloads, AcksOk, ThreadsOk, OnceOk;
    HeldBarrier(s);
    var at := s.threads[pid].at.value;
    assert s.sent[at] == Barrier(pid) && s.sent[Done(s)] == s.worker.item;
  }

  lemma WorkKeepsQueue(s: State)
    requires Inv(s)
    ensures QueueOk(MoveWorker(s))
  {
    hide Payloads, ItemOf, SentOk, AcksOk, ThreadsOk;
    var d := MoveWorker(s);
    if s.worker == Waiting && s.queue != [] {
      assert d.queue == s.sent[d.taken..] && d.worker.item == s.sent[d.taken - 1];
    } else if s.worker.Holding? {
      var done := Done(s);
      assert d.sent[..done + 1] == s.sent[..done] + [s.sent[done]];
      PayloadsSnoc(s.sent[..done], s.sent[done]);
    }
  }

  /** The worker's moves leave callers and guards alone. */
  ghost predicate OnlyWorks(s: State, d: State) {
    && d.threads == s.threads && d.sent == s.sent && d.once == s.once && d.closed == s.closed
    && d.writerClosed == s.writerClosed && s.acks <= d.acks && (s.worker == Stopped ==> d.worker == Stopped)
  }

  lemma WorksOnly(s: State)
    ensures OnlyWorks(s, MoveWorker(s))
  {
  }

  lemma OnlyWorksKeepsThreads(s: State, d: State)
    requires OnlyWorks(s, d) && SentOk(s) && ThreadsOk(s) && OnceOk(s)
    ensures SentOk(d) && ThreadsOk(d) && OnceOk(d)
  {
    hide ItemOf, ThreadOk;
    forall q | q in d.threads
      ensures ThreadOk(d, q, d.threads[q])
    {
      assert ThreadOk(s, q, s.threads[q]);
      OneThreadOk(s, d, q);
    }
  }

  lemma OneThreadOk(s: State, d: State, q: Pid)
    requires OnlyWorks(s, d) && q in s.threads && ThreadOk(s, q, s.threads[q])
    ensures ThreadOk(d, q, s.threads[q])
  {
  }

  lemma WorkKeepsInv(s: State)
    requires Inv(s)
    ensures Inv(MoveWorker(s))
  {
    WorkKeepsQueue(s);
    WorkKeepsAcks(s);
    WorksOnly(s);
    OnlyWorksKeepsThreads(s, MoveWorker(s));
    hide QueueOk, SentOk, AcksOk, ThreadsOk, OnceOk, MoveWorker;
  }

  lemma StepKeepsInv(s: State, a: Action)
    requires Inv(s)
    ensures Inv(Step(s, a))
  {
    hide Payloads, ItemOf, MoveThread, MoveWorker, Inv;
    match a {
      case Move(pid) => if pid in s.threads { MoveKeepsInv(s, pid); }
      case Work => WorkKeepsInv(s);
      case Start(pid, call) => if pid !in s.threads { StartKeepsInv(s, pid, call); }
    }
  }

  lemma StartKeepsInv(s: State, pid: Pid, call: Call)
    requires Inv(s) && pid !in s.threads
    ensures Inv(Step(s, Start(pid, call)))
  {
    hide Payloads, ItemOf, ThreadsOk, OnceOk;
    StartKeepsThreads(s, pid, call);
  }

  lemma StartKeepsThreads(s: State, pid: Pid, call: Call)
    requires ThreadsOk(s) && OnceOk(s) && pid !in s.threads
    ensures ThreadsOk(Step(s, Start(pid, call))) && OnceOk(Step(s, Start(pid, call)))
  {
    var d := Step(s, Start(pid, call));
    forall q | q in d.threads
      ensures ThreadOk(d, q, d.threads[q])
    {
      assert q in s.threads ==> ThreadOk(s, q, s.threads[q]);
    }
  }

  /** The invariant holds in every state that any interleaving of any calls reaches. */
  lemma {:induction false} RunKeepsInv(s: State, actions: seq<Action>)
    requires Inv(s)
    ensures Inv(Run(s, actions))
    decreases |actions|
  {
    hide Inv, Step;
    if actions != [] {
      StepKeepsInv(s, actions[0]);
      RunKeepsInv(Step(s, actions[0]), actions[1..]);
    }
  }

  lemma Reachable(actions: seq<Action>)
    ensures Inv(Run(INITIAL, actions))
  {
    RunKeepsInv(INITIAL, actions);
  }

  // ---------------------------------------------------------------- what callers are promised

  /**
   * The worker hands over exactly the non-empty payloads that were enqueued, each once and in queue order, as
   * far as it has come; and every item on record was enqueued by a different call.
   */
  lemma HandedInOrder(actions: seq<Action>)
    ensures var s := Run(INITIAL, actions);
      && 0 <= Done(s) <= |s.sent|
      && s.handed == Payloads(s.sent[..Done(s)])
      && forall i, j :: 0 <= i < j < |s.sent| ==> s.sent[i].pid != s.sent[j].pid
  {
    Reachable(actions);
  }

  lemma {:induction false} PayloadsPrefix(items: seq<Item>, n: nat)
    requires n <= |items|
    ensures Payloads(items[..n]) <= Payloads(items)
    decreases |items|
  {
    if n < |items| {
      PayloadsPrefix(items[..|items| - 1], n);
      assert items[..|items| - 1][..n] == items[..n];
    } else {
      assert items[..n] == items;
    }
  }

  /**
   * A Flush that was acknowledged: everything enqueued before its own barrier, so in particular everything
   * enqueued before it was called, has been handed over.
   */
  lemma FlushIsBarrier(actions: seq<Action>, pid: Pid)
    requires var s := Run(INITIAL, actions);
      pid in s.threads && s.threads[pid].call == Flush && s.threads[pid].pc.Returned? && s.threads[pid].pc.acked
    ensures var s := Run(INITIAL, actions);
      var t := s.threads[pid];
      && t.at.Some? && t.since <= t.at.value < |s.sent| && s.sent[t.at.value] == Barrier(pid)
      && Payloads(s.sent[..t.at.value]) <= s.handed
      && Payloads(s.sent[..t.since]) <= s.handed
  {
    hide Run, Payloads;
    Reachable(actions);
    var s := Run(INITIAL, actions);
    assert ThreadOk(s, pid, s.threads[pid]);
    var since, at := s.threads[pid].since, s.threads[pid].at.value;
    PayloadsPrefix(s.sent[..Done(s)], since);
    PayloadsPrefix(s.sent[..Done(s)], at);
    assert s.sent[..Done(s)][..since] == s.sent[..since] && s.sent[..Done(s)][..at] == s.sent[..at];
  }

  /** A Write that reports bytes has enqueued its payload, and one that reports none has not (or had none). */
  lemma WriteReportsEnqueued(actions: seq<Action>, pid: Pid)
    requires var s := Run(INITIAL, actions);
      pid in s.threads && s.threads[pid].call.Write? && s.threads[pid].pc.Returned?
    ensures var s := Run(INITIAL, actions);
      var p := s.threads[pid].call.p;
      if s.threads[pid].pc.n > 0 then s.threads[pid].pc.n == |p| && Data(pid, p) in s.sent
      else forall q :: q != [] ==> Data(pid, q) !in s.sent
  {
    hide Run;
    Reachable(actions);
    var s := Run(INITIAL, actions);
    assert ThreadOk(s, pid, s.threads[pid]);
  }

  /**
   * An open writer accepts whatever it is given: while nothing has been closed, a Write that has returned reports all
   * of its payload, which is on the queue's record, and a Flush that has returned was acknowledged.
   */
  lemma OpenWriterAccepts(actions: seq<Action>, pid: Pid)
    requires var s := Run(INITIAL, actions);
      pid in s.threads && s.threads[pid].pc.Returned? && !s.closed
    ensures var s := Run(INITIAL, actions);
      var t := s.threads[pid];
      && !t.call.Close? && !t.pc.closedError
      && (t.call.Write? ==> t.pc.n == |t.call.p| && Data(pid, t.call.p) in s.sent)
      && (t.call.Flush? ==> t.pc.acked)
  {
    hide Run;
    Reachable(actions);
    var s := Run(INITIAL, actions);
    assert ThreadOk(s, pid, s.threads[pid]);
  }

  /** A call that has come past its look at the closed flag and will not report it. */
  predicate NotRefused(s: State, pid: Pid) {
    && pid in s.threads && s.threads[pid].call.Write?
    && var pc := s.threads[pid].pc;
       pc == Send || (pc.Returned? && !pc.closedError)
  }

  predicate Refused(s: State, pid: Pid) {
    pid in s.threads && s.threads[pid].pc == Returned(0, true, false)
  }

  lemma StepKeepsRefusal(s: State, a: Action, pid: Pid)
    ensures NotRefused(s, pid) ==> NotRefused(Step(s, a), pid)
    ensures Refused(s, pid) ==> Refused(Step(s, a), pid)
  {
    hide ItemOf, MoveWorker, MoveThread;
    if a.Move? && a.pid in s.threads {
      if a.pid == pid {
        OwnRefusal(s, pid);
      } else {
        OthersStay(s, a.pid, pid);
      }
    }
    WorkerMovesNobody(s);
  }

  lemma OwnRefusal(s: State, pid: Pid)
    requires pid in s.threads
    ensures NotRefused(s, pid) ==> NotRefused(MoveThread(s, pid), pid)
    ensures Refused(s, pid) ==> Refused(MoveThread(s, pid), pid)
  {
    hide ItemOf;
  }

  lemma WorkerMovesNobody(s: State)
    ensures MoveWorker(s).threads == s.threads
  {
  }

  lemma OthersStay(s: State, mover: Pid, pid: Pid)
    requires mover in s.threads && mover != pid
    ensures pid in s.threads <==> pid in MoveThread(s, mover).threads
    ensures pid in s.threads ==> MoveThread(s, mover).threads[pid] == s.threads[pid]
  {
    hide ItemOf, MoveThread;
    if CanEnqueue(s, mover) {
      EnqueueLowersRank(s, mover);
    } else {
      MovesOnly(s, mover);
    }
  }

  lemma {:induction false} RunKeepsRefusal(s: State, actions: seq<Action>, pid: Pid)
    ensures NotRefused(s, pid) ==> NotRefused(Run(s, actions), pid)
    ensures Refused(s, pid) ==> Refused(Run(s, actions), pid)
    decreases |actions|
  {
    hide Step, NotRefused, Refused;
    if actions != [] {
      StepKeepsRefusal(s, actions[0], pid);
      RunKeepsRefusal(Step(s, actions[0]), actions[1..], pid);
    }
  }

  /**
   * A Write reports the writer as closed exactly when it was so as the call looked; one that looked before and
   * found the queue closed when it sent reports neither bytes nor an error.
   */
  lemma RefusedExactlyWhenClosed(s: State, pid: Pid, later: seq<Action>)
    requires pid in s.threads && s.threads[pid].call.Write? && s.threads[pid].pc == Check
    ensures var d := Run(s, [Move(pid)] + later);
      && pid in d.threads
      && (s.closed ==> d.threads[pid].pc == Returned(0, true, false))
      && (!s.closed && d.threads[pid].pc.Returned? ==> !d.threads[pid].pc.closedError)
  {
    hide Run;
    var next := Step(s, Move(pid));
    assert Run(s, [Move(pid)] + later) == Run(next, later) by {
      RunFirst(s, Move(pid), later);
    }
    RunKeepsRefusal(next, later, pid);
  }

  lemma RunFirst(s: State, a: Action, later: seq<Action>)
    ensures Run(s, [a] + later) == Run(Step(s, a), later)
  {
    hide Step;
    assert ([a] + later)[1..] == later;
  }

  /** A caller waits to send exactly while 1024 items are queued. */
  lemma SendWaitsExactlyWhenFull(actions: seq<Action>, pid: Pid)
    requires var s := Run(INITIAL, actions); pid in s.threads && s.threads[pid].pc == Send && !s.closed
    ensures var s := Run(INITIAL, actions);
      && |s.queue| <= 1024
      && (Step(s, Move(pid)) == s <==> |s.queue| == 1024)
  {
    hide Run, Payloads, ItemOf;
    Reachable(actions);
    var s := Run(INITIAL, actions);
    if |s.queue| < QUEUE_SIZE {
      assert |Step(s, Move(pid)).sent| == |s.sent| + 1;
    }
  }

  /** Payloads are those of the items in order, none of barriers and none that are empty. */
  lemma {:induction false} PayloadsMeaning(a: seq<Item>, b: seq<Item>, pid: Pid, p: bytes)
    ensures Payloads(a + b) == Payloads(a) + Payloads(b)
    ensures Payloads([Data(pid, p)]) == if p == [] then [] else [p]
    ensures Payloads([Barrier(pid)]) == []
    decreases |b|
  {
    if b == [] {
      assert a + b == a && Payloads(a) + [] == Payloads(a);
    } else {
      var n := |b| - 1;
      PayloadsMeaning(a, b[..n], pid, p);
      assert a + b == (a + b[..n]) + [b[n]] && b == b[..n] + [b[n]];
      PayloadsSnoc(a + b[..n], b[n]);
      PayloadsSnoc(b[..n], b[n]);
    }
  }

  /** When any Close has returned, the queue is empty and every enqueued payload has been handed over. */
  lemma CloseDrains(actions: seq<Action>, pid: Pid)
    requires var s := Run(INITIAL, actions);
      pid in s.threads && s.threads[pid].call == Close && s.threads[pid].pc.Returned?
    ensures var s := Run(INITIAL, actions);
      s.queue == [] && s.handed == Payloads(s.sent) && s.worker == Stopped && s.closed
  {
    hide Run, Payloads;
    Reachable(actions);
    var s := Run(INITIAL, actions);
    assert ThreadOk(s, pid, s.threads[pid]);
    assert s.sent[..Done(s)] == s.sent;
  }

  /** Once the worker has stopped, nothing is enqueued or handed over any more, so the closed writer is left alone. */
  lemma {:induction false} NothingAfterStop(s: State, actions: seq<Action>)
    requires Inv(s) && s.worker == Stopped
    ensures var d := Run(s, actions); d.sent == s.sent && d.handed == s.handed && d.worker == Stopped
    decreases |actions|
  {
    hide Inv;
    if actions != [] {
      var d := Step(s, actions[0]);
      StepKeepsInv(s, actions[0]);
      assert s.closed by {
        StoppedIsClosed(s);
      }
      NothingAfterStop(d, actions[1..]);
    }
  }

  lemma StoppedIsClosed(s: State)
    requires Inv(s) && s.worker == Stopped
    ensures s.closed
  {
  }

  /** The underlying writer is closed only after the worker has stopped. */
  lemma WriterClosedLast(actions: seq<Action>)
    ensures var s := Run(INITIAL, actions); s.writerClosed ==> s.worker == Stopped && s.handed == Payloads(s.sent)
  {
    hide Run, Payloads;
    Reachable(actions);
    var s := Run(INITIAL, actions);
    if s.writerClosed {
      assert s.sent[..Done(s)] == s.sent;
    }
  }

  // ---------------------------------------------------------------- progress

  lemma WorkerCanMove(s: State)
    requires Inv(s) && s.worker != Stopped && (Done(s) < |s.sent| || s.closed)
    ensures Step(s, Work) != s
  {
    hide Payloads;
    var d := Step(s, Work);
    if s.worker == Waiting && s.queue != [] {
      assert d.taken != s.taken;
    } else {
      assert d.worker != s.worker;
    }
  }

  /** No interleaving deadlocks: while a call has not returned, somebody can move. */
  lemma NoDeadlock(s: State, pid: Pid) returns (a: Action)
    requires Inv(s) && pid in s.threads && !s.threads[pid].pc.Returned?
    ensures !a.Start? && Step(s, a) != s
  {
    hide Payloads, QueueOk;
    var who := pid;
    if s.threads[pid].pc == Enter && s.threads[pid].call.Close? && s.once.Busy? {
      who := s.once.pid;
    }
    var t := s.threads[who];
    assert ThreadOk(s, who, t) && Active(s.threads[pid]) == (s.once == Busy(pid));
    a := Move(who);
    var waits := match t.pc
      case Send => !s.closed && |s.queue| >= QUEUE_SIZE
      case Await => who !in s.acks
      case Join => s.worker != Stopped
      case _ => false;
    if waits {
      SomethingToDo(s);
      assert t.pc == Await ==> t.at.value >= Done(s);
      WorkerCanMove(s);
      a := Work;
    } else {
      assert Step(s, a).threads[who] != t;
    }
  }

  /** How far a caller is from returning; sending leaves work for the worker. */
  function Rank(pc: Pc): nat {
    match pc
    case Enter => 10
    case Check => 9
    case Send => 8
    case Await => 5
    case Sync => 4
    case Shut => 3
    case Join => 2
    case CloseWriter => 1
    case Returned(_, _, _) => 0
  }

  /** The callers' ranks, for the first `n` callers. */
  function Ranks(threads: map<Pid, Thread>, n: nat): nat {
    if n == 0 then 0 else Ranks(threads, n - 1) + (if n - 1 in threads then Rank(threads[n - 1].pc) else 0)
  }

  /** What is left to do: the callers', and two turns of the worker for each item, and its end. */
  function Measure(s: State, n: nat): nat {
    Ranks(s.threads, n) + 2 * |s.queue| + (match s.worker case Holding(_) => 2 case Waiting => 1 case Stopped => 0)
  }

  ghost predicate Bounded(s: State, n: nat) {
    forall pid :: pid in s.threads ==> pid < n
  }

  lemma {:induction false} RanksChanged(a: map<Pid, Thread>, b: map<Pid, Thread>, pid: Pid, n: nat)
    requires a.Keys == b.Keys && pid in a && forall q :: q in a && q != pid ==> b[q] == a[q]
    ensures pid < n ==> Ranks(b, n) == Ranks(a, n) - Rank(a[pid].pc) + Rank(b[pid].pc)
    ensures pid >= n ==> Ranks(b, n) == Ranks(a, n)
    decreases n
  {
    if n > 0 {
      RanksChanged(a, b, pid, n - 1);
    }
  }

  /** Every step that changes anything, unless it starts a call, brings the end nearer. */
  lemma StepsLowerMeasure(s: State, a: Action, n: nat)
    requires Inv(s) && Bounded(s, n) && !a.Start? && Step(s, a) != s
    ensures Measure(Step(s, a), n) < Measure(s, n) && Bounded(Step(s, a), n)
  {
    hide Inv, Ranks;
    if a.Move? {
      MoveLowersMeasure(s, a.pid, n);
    }
  }

  lemma MoveLowersMeasure(s: State, pid: Pid, n: nat)
    requires Bounded(s, n) && pid in s.threads && MoveThread(s, pid) != s
    ensures Measure(MoveThread(s, pid), n) < Measure(s, n) && Bounded(MoveThread(s, pid), n)
  {
    hide Ranks, Rank;
    var d := MoveThread(s, pid);
    MoveLowersRank(s, pid);
    RanksChanged(s.threads, d.threads, pid, n);
  }

  lemma MoveLowersRank(s: State, pid: Pid)
    requires pid in s.threads && MoveThread(s, pid) != s
    ensures var d := MoveThread(s, pid);
      && d.threads.Keys == s.threads.Keys && d.worker == s.worker
      && (forall q :: q in s.threads && q != pid ==> d.threads[q] == s.threads[q])
      && Rank(d.threads[pid].pc) + 2 * |d.queue| < Rank(s.threads[pid].pc) + 2 * |s.queue|
  {
    if CanEnqueue(s, pid) {
      EnqueueLowersRank(s, pid);
    } else {
      MovesOnly(s, pid);
      OtherMoveLowersRank(s, pid);
      hide MoveThread, Rank;
    }
  }

  lemma EnqueueLowersRank(s: State, pid: Pid)
    requires CanEnqueue(s, pid)
    ensures var d := Enqueue(s, pid);
      && MoveThread(s, pid) == d
      && d.threads.Keys == s.threads.Keys && d.worker == s.worker
      && (forall q :: q in s.threads && q != pid ==> d.threads[q] == s.threads[q])
      && Rank(d.threads[pid].pc) <= 5 && Rank(s.threads[pid].pc) == 8 && |d.queue| == |s.queue| + 1
  {
    hide ItemOf;
  }

  lemma OtherMoveLowersRank(s: State, pid: Pid)
    requires pid in s.threads && !CanEnqueue(s, pid) && MoveThread(s, pid) != s
    ensures pid in MoveThread(s, pid).threads
    ensures Rank(MoveThread(s, pid).threads[pid].pc) < Rank(s.threads[pid].pc)
  {
    hide Enqueue, ItemOf;
  }

  predicate AllReturned(s: State) {
    forall pid :: pid in s.threads ==> s.threads[pid].pc.Returned?
  }

  /**
   * From every reachable state all open calls can be brought to return; and since every effective step lowers the
   * measure, no schedule that goes on taking such steps avoids it.
   */
  lemma {:induction false} AllCallsReturn(s: State, n: nat) returns (actions: seq<Action>)
    requires Inv(s) && Bounded(s, n)
    ensures (forall i :: 0 <= i < |actions| ==> !actions[i].Start?) && |actions| <= Measure(s, n)
    ensures AllReturned(Run(s, actions))
    decreases Measure(s, n)
  {
    hide Inv, Step, Measure;
    actions := [];
    if pid :| pid in s.threads && !s.threads[pid].pc.Returned? {
      var a := NoDeadlock(s, pid);
      StepsLowerMeasure(s, a, n);
      StepKeepsInv(s, a);
      var later := AllCallsReturn(Step(s, a), n);
      actions := [a] + later;
      assert actions[1..] == later;
    }
  }

  lemma StepKeepsCalls(s: State, a: Action, pid: Pid)
    requires pid in s.threads
    ensures pid in Step(s, a).threads && Step(s, a).threads[pid].call == s.threads[pid].call
  {
    hide ItemOf, MoveThread;
    if a.Move? && a.pid in s.threads {
      if CanEnqueue(s, a.pid) {
        EnqueueLowersRank(s, a.pid);
      } else {
        MovesOnly(s, a.pid);
      }
    }
  }

  lemma {:induction false} RunKeepsCalls(s: State, actions: seq<Action>, pid: Pid)
    requires pid in s.threads
    ensures pid in Run(s, actions).threads && Run(s, actions).threads[pid].call == s.threads[pid].call
    decreases |actions|
  {
    hide Step;
    if actions != [] {
      StepKeepsCalls(s, actions[0], pid);
      RunKeepsCalls(Step(s, actions[0]), actions[1..], pid);
    }
  }

  /** In every reachable state another call can be made, and can be brought to return. */
  lemma AnyCallReturns(before: seq<Action>, pid: Pid, call: Call) returns (later: seq<Action>)
    requires pid !in Run(INITIAL, before).threads
    ensures var d := Run(INITIAL, before + [Start(pid, call)] + later);
      && pid in d.threads && d.threads[pid].call == call && d.threads[pid].pc.Returned?
    ensures forall i :: 0 <= i < |later| ==> !later[i].Start?
  {
    hide Run, Inv, Measure, MoveThread, MoveWorker;
    var s := Run(INITIAL, before);
    Reachable(before);
    var started := Step(s, Start(pid, call));
    StepKeepsInv(s, Start(pid, call));
    var n := BoundOf(started);
    later := AllCallsReturn(started, n);
    RunKeepsCalls(started, later, pid);
    RunFirst(s, Start(pid, call), later);
    RunOn(INITIAL, before, [Start(pid, call)] + later);
    assert before + [Start(pid, call)] + later == before + ([Start(pid, call)] + later);
  }

  lemma {:induction false} RunOn(s: State, a: seq<Action>, b: seq<Action>)
    ensures Run(s, a + b) == Run(Run(s, a), b)
    decreases |a|
  {
    hide Step;
    if a == [] {
      assert a + b == b;
    } else {
      assert (a + b)[1..] == a[1..] + b;
      RunOn(Step(s, a[0]), a[1..], b);
    }
  }

  lemma BoundOf(s: State) returns (n: nat)
    ensures Bounded(s, n)
  {
    n := BoundOfSet(s.threads.Keys);
  }

  lemma {:induction false} BoundOfSet(pids: set<Pid>) returns (n: nat)
    ensures forall pid :: pid in pids ==> pid < n
    decreases |pids|
  {
    n := 0;
    if pid :| pid in pids {
      n := BoundOfSet(pids - {pid});
      n := if n <= pid then pid + 1 else n;
      assert forall q :: q in pids ==> q == pid || q in pids - {pid};
    }
  }

  /** The steps of the schedule that change something. */
  predicate AllEffective(s: State, actions: seq<Action>)
    decreases |actions|
  {
    actions == [] ||
    (!actions[0].Start? && Step(s, actions[0]) != s && AllEffective(Step(s, actions[0]), actions[1..]))
  }

  lemma {:induction false} EffectiveStepsAreBounded(s: State, actions: seq<Action>, n: nat)
    requires Inv(s) && Bounded(s, n) && AllEffective(s, actions)
    ensures |actions| <= Measure(s, n)
    decreases |actions|
  {
    hide Inv, Step, Measure;
    if actions != [] {
      StepsLowerMeasure(s, actions[0], n);
      StepKeepsInv(s, actions[0]);
      EffectiveStepsAreBounded(Step(s, actions[0]), actions[1..], n);
    }
  }

  lemma SomethingToDo(s: State)
    requires Inv(s)
    ensures |s.queue| > 0 ==> Done(s) < |s.sent|
    ensures s.worker == Stopped ==> s.closed && Done(s) == |s.sent|
  {
    hide Payloads;
  }

  /** Left to itself the worker hands over everything that has been enqueued. */
  lemma {:induction false} WorkerDrains(s: State) returns (turns: nat)
    requires Inv(s)
    ensures Run(s, seq(turns, _ => Work)).handed == Payloads(s.sent)
    decreases |s.sent| - Done(s), s.worker == Waiting
  {
    hide Payloads, Inv, MoveWorker;
    SomethingToDo(s);
    WorkAdvances(s);
    if Done(s) == |s.sent| {
      turns := 0;
    } else {
      var d := Step(s, Work);
      StepKeepsInv(s, Work);
      var n := WorkerDrains(d);
      turns := n + 1;
      assert seq(turns, _ => Work)[1..] == seq(n, _ => Work);
    }
  }

  lemma WorkAdvances(s: State)
    requires Inv(s)
    ensures Done(s) <= |s.sent| && (Done(s) == |s.sent| ==> s.handed == Payloads(s.sent))
    ensures var d := MoveWorker(s);
      d.sent == s.sent && (Done(s) < |s.sent| ==>
        Done(d) > Done(s) || (Done(d) == Done(s) && s.worker == Waiting && d.worker != Waiting))
  {
    hide Payloads;
    if Done(s) == |s.sent| {
      assert s.sent[..Done(s)] == s.sent;
    }
  }
}
