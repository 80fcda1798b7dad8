/**
 * The tracked teardown of a relay (processor/tcp/relay.go): two directions copy, each then marks itself done,
 * and the last one closes both connections. One action is one atomic store, load or guarded step.
 */
module RelayTeardown {

  datatype Direction = ClientToServer | ServerToClient

  /**
   * Where a direction stands: copying, about to store its flag, about to load the client's and the server's
   * flag, at the once-guard, inside it, or returned; `skipped` when it saw the other direction still running.
   */
  datatype Pc = Copying | Store | LoadClient | LoadServer | AtGuard | CloseOrigin | CloseRemote | Returned(skipped: bool)

  datatype Guard = Fresh | Running(d: Direction) | Ran

  /** The connections may be absent, and count their closes. */
  datatype State = State(
    client: Pc, server: Pc, clientDone: bool, serverDone: bool, guard: Guard,
    hasOrigin: bool, hasRemote: bool, originCloses: nat, remoteCloses: nat)

  function Initial(hasOrigin: bool, hasRemote: bool): State {
    State(Copying, Copying, false, false, Fresh, hasOrigin, hasRemote, 0, 0)
  }

  function Other(d: Direction): Direction {
    if d == ClientToServer then ServerToClient else ClientToServer
  }

  function At(s: State, d: Direction): Pc {
    if d == ClientToServer then s.client else s.server
  }

  function Goto(s: State, d: Direction, pc: Pc): State {
    if d == ClientToServer then s.(client := pc) else s.(server := pc)
  }

  /** One atomic step of a direction; a step that must wait changes nothing. */
  function Step(s: State, d: Direction): State {
    match At(s, d)
    case Copying => Goto(s, d, Store)
    case Store =>
      var t := Goto(s, d, LoadClient);
      if d == ClientToServer then t.(clientDone := true) else t.(serverDone := true)
    case LoadClient => Goto(s, d, if s.clientDone then LoadServer else Returned(true))
    case LoadServer => Goto(s, d, if s.serverDone then AtGuard else Returned(true))
    case AtGuard =>
      if s.guard == Fresh then Goto(s, d, CloseOrigin).(guard := Running(d))
      else if s.guard == Ran then Goto(s, d, Returned(false))
      else s
    case CloseOrigin =>
      Goto(s, d, CloseRemote).(originCloses := s.originCloses + if s.hasOrigin then 1 else 0)
    case CloseRemote =>
      Goto(s, d, Returned(false)).(remoteCloses := s.remoteCloses + (if s.hasRemote then 1 else 0), guard := Ran)
    case Returned(_) => s
  }

  function Run(s: State, schedule: seq<Direction>): State
    decreases |schedule|
  {
    if schedule == [] then s else Run(Step(s, schedule[0]), schedule[1..])
  }

  // ---------------------------------------------------------------- what every step keeps

  function DoneFlag(s: State, d: Direction): bool {
    if d == ClientToServer then s.clientDone else s.serverDone
  }

  predicate Closing(pc: Pc) {
    pc == CloseOrigin || pc == CloseRemote
  }

  ghost predicate DirectionOk(s: State, d: Direction) {
    var pc := At(s, d);
    && (DoneFlag(s, d) <==> pc != Copying && pc != Store)
    && (pc == LoadServer ==> s.clientDone)
    && (pc == AtGuard || Closing(pc) || pc == Returned(false) ==> s.clientDone && s.serverDone)
    && (Closing(pc) <==> s.guard == Running(d))
    && (pc == Returned(false) ==> s.guard == Ran)
    && (pc == Returned(true) ==> At(s, Other(d)) != Returned(true))
  }

  /** The guard and the counts of closes. */
  ghost predicate CountsOk(s: State) {
    && (s.guard != Fresh ==> s.clientDone && s.serverDone)
    && s.originCloses == (if s.hasOrigin && OriginClosed(s) then 1 else 0)
    && s.remoteCloses == (if s.hasRemote && s.guard == Ran then 1 else 0)
  }

  ghost predicate Inv(s: State) {
    DirectionOk(s, ClientToServer) && DirectionOk(s, ServerToClient) && CountsOk(s)
  }

  /** The origin's close is past. */
  predicate OriginClosed(s: State) {
    s.guard == Ran || (s.guard.Running? && At(s, s.guard.d) == CloseRemote)
  }

  /** The direction is at the once-guard or inside it. */
  predicate Teardown(pc: Pc) {
    pc == AtGuard || Closing(pc)
  }

  lemma EarlyStepKeepsOwn(s: State, d: Direction)
    requires Inv(s) && !Teardown(At(s, d))
    ensures DirectionOk(Step(s, d), d)
  {
    hide CountsOk;
    assert DirectionOk(s, d) && DirectionOk(s, Other(d));
  }

  lemma LateStepKeepsOwn(s: State, d: Direction)
    requires Inv(s) && Teardown(At(s, d))
    ensures DirectionOk(Step(s, d), d)
  {
    hide CountsOk;
    assert DirectionOk(s, d);
  }

  lemma StepKeepsOther(s: State, d: Direction)
    requires Inv(s)
    ensures DirectionOk(Step(s, d), Other(d))
  {
    hide OriginClosed;
    assert DirectionOk(s, Other(d)) && DirectionOk(s, d);
  }

  lemma EarlyStepKeepsCounts(s: State, d: Direction)
    requires Inv(s) && !Teardown(At(s, d))
    ensures CountsOk(Step(s, d))
  {
    assert DirectionOk(s, d);
    assert s.guard.Running? ==> DirectionOk(s, s.guard.d);
  }

  lemma LateStepKeepsCounts(s: State, d: Direction)
    requires Inv(s) && Teardown(At(s, d))
    ensures CountsOk(Step(s, d))
  {
    assert DirectionOk(s, d);
  }

  lemma StepKeepsInv(s: State, d: Direction)
    requires Inv(s)
    ensures Inv(Step(s, d))
    ensures Step(s, d).hasOrigin == s.hasOrigin && Step(s, d).hasRemote == s.hasRemote
  {
    if Teardown(At(s, d)) {
      LateStepKeepsOwn(s, d);
      LateStepKeepsCounts(s, d);
    } else {
      EarlyStepKeepsOwn(s, d);
      EarlyStepKeepsCounts(s, d);
    }
    StepKeepsOther(s, d);
    hide DirectionOk, CountsOk;
  }

  lemma {:induction false} RunKeepsInv(s: State, schedule: seq<Direction>)
    requires Inv(s)
    ensures Inv(Run(s, schedule))
    ensures Run(s, schedule).hasOrigin == s.hasOrigin && Run(s, schedule).hasRemote == s.hasRemote
    decreases |schedule|
  {
    hide Inv, Step;
    if schedule != [] {
      StepKeepsInv(s, schedule[0]);
      RunKeepsInv(Step(s, schedule[0]), schedule[1..]);
    }
  }

  /** No connection is ever closed before both directions have finished copying and marked themselves done. */
  lemma ClosesOnlyWhenBothDone(schedule: seq<Direction>, hasOrigin: bool, hasRemote: bool)
    ensures var s := Run(Initial(hasOrigin, hasRemote), schedule);
      s.originCloses > 0 || s.remoteCloses > 0 ==>
        && s.clientDone && s.serverDone
        && s.client != Copying && s.client != Store && s.server != Copying && s.server != Store
  {
    RunKeepsInv(Initial(hasOrigin, hasRemote), schedule);
  }

  /** Once both calls have returned, each connection there is has been closed exactly once. */
  lemma BothReturnedMeansClosedOnce(schedule: seq<Direction>, hasOrigin: bool, hasRemote: bool)
    requires var s := Run(Initial(hasOrigin, hasRemote), schedule);
      s.client.Returned? && s.server.Returned?
    ensures var s := Run(Initial(hasOrigin, hasRemote), schedule);
      s.originCloses == (if hasOrigin then 1 else 0) && s.remoteCloses == (if hasRemote then 1 else 0)
  {
    RunKeepsInv(Initial(hasOrigin, hasRemote), schedule);
  }

  /** At no time is a connection closed twice. */
  lemma NeverClosedTwice(schedule: seq<Direction>, hasOrigin: bool, hasRemote: bool)
    ensures var s := Run(Initial(hasOrigin, hasRemote), schedule);
      s.originCloses <= 1 && s.remoteCloses <= 1
  {
    RunKeepsInv(Initial(hasOrigin, hasRemote), schedule);
  }

  /** How many steps a direction has still to take. */
  function Left(pc: Pc): nat {
    match pc
    case Copying => 7
    case Store => 6
    case LoadClient => 5
    case LoadServer => 4
    case AtGuard => 3
    case CloseOrigin => 2
    case CloseRemote => 1
    case Returned(_) => 0
  }

  /** The teardown cannot get stuck: until both calls have returned, some direction makes progress. */
  lemma SomebodyProgresses(s: State) returns (d: Direction)
    requires Inv(s) && !(s.client.Returned? && s.server.Returned?)
    ensures Left(At(Step(s, d), d)) < Left(At(s, d)) && At(Step(s, d), Other(d)) == At(s, Other(d))
  {
    d := if s.guard.Running? then s.guard.d
         else if s.client.Returned? then ServerToClient else ClientToServer;
  }

  /** So from every state that can be reached both calls can be brought to return, in at most fourteen steps. */
  lemma {:induction false} BothCanReturn(s: State) returns (schedule: seq<Direction>)
    requires Inv(s)
    ensures Run(s, schedule).client.Returned? && Run(s, schedule).server.Returned?
    ensures |schedule| <= Left(s.client) + Left(s.server)
    decreases Left(s.client) + Left(s.server)
  {
    hide Inv, Step;
    schedule := [];
    if !(s.client.Returned? && s.server.Returned?) {
      var d := SomebodyProgresses(s);
      StepKeepsInv(s, d);
      var later := BothCanReturn(Step(s, d));
      schedule := [d] + later;
      assert schedule[1..] == later;
    }
  }

  /** Taking turns, each direction seven times, the first finds the other at work and the second closes both. */
  lemma TeardownHappens(hasOrigin: bool, hasRemote: bool)
    ensures var c, r := ClientToServer, ServerToClient;
      var s := Run(Initial(hasOrigin, hasRemote), [c, c, c, c, r, r, r, r, r, r, r]);
      && s.client == Returned(true) && s.server == Returned(false)
      && s.originCloses == (if hasOrigin then 1 else 0) && s.remoteCloses == (if hasRemote then 1 else 0)
  {
    hide Step;
    var c, r := ClientToServer, ServerToClient;
    var s0 := Initial(hasOrigin, hasRemote);
    var s4 := Step(Step(Step(Step(s0, c), c), c), c);
    FirstAlone(hasOrigin, hasRemote);
    SecondCloses(s4);
    RunFour(s0, c, [r, r, r, r, r, r, r]);
    RunFour(s4, r, [r, r, r]);
    var s8 := Step(Step(Step(Step(s4, r), r), r), r);
    RunThree(s8, r);
    assert [c, c, c, c] + [r, r, r, r, r, r, r] == [c, c, c, c, r, r, r, r, r, r, r];
    assert [r, r, r, r] + [r, r, r] == [r, r, r, r, r, r, r];
  }

  lemma RunOne(s: State, d: Direction, later: seq<Direction>)
    ensures Run(s, [d] + later) == Run(Step(s, d), later)
  {
    hide Step;
    assert ([d] + later)[1..] == later;
  }

  lemma RunFour(s: State, d: Direction, later: seq<Direction>)
    ensures Run(s, [d, d, d, d] + later) == Run(Step(Step(Step(Step(s, d), d), d), d), later)
  {
    hide Step, Run;
    RunOne(s, d, [d, d, d] + later);
    RunOne(Step(s, d), d, [d, d] + later);
    RunOne(Step(Step(s, d), d), d, [d] + later);
    RunOne(Step(Step(Step(s, d), d), d), d, later);
    assert [d, d, d, d] + later == [d] + ([d, d, d] + later);
    assert [d, d, d] + later == [d] + ([d, d] + later);
    assert [d, d] + later == [d] + ([d] + later);
  }

  lemma RunThree(s: State, d: Direction)
    ensures Run(s, [d, d, d]) == Step(Step(Step(s, d), d), d)
  {
    hide Step;
    RunOne(s, d, [d, d]);
    RunOne(Step(s, d), d, [d]);
    RunOne(Step(Step(s, d), d), d, []);
    assert [d] + [d, d] == [d, d, d] && [d] + [d] == [d, d] && [d] + [] == [d];
  }

  lemma FirstAlone(hasOrigin: bool, hasRemote: bool)
    ensures var c := ClientToServer;
      Step(Step(Step(Step(Initial(hasOrigin, hasRemote), c), c), c), c)
      == Initial(hasOrigin, hasRemote).(client := Returned(true), clientDone := true)
  {
  }

  lemma SecondCloses(s: State)
    requires s.server == Copying && s.clientDone && !s.serverDone && s.guard == Fresh
    ensures var r := ServerToClient;
      Step(Step(Step(Step(Step(Step(Step(s, r), r), r), r), r), r), r)
      == s.(server := Returned(false), serverDone := true, guard := Ran,
            originCloses := s.originCloses + (if s.hasOrigin then 1 else 0),
            remoteCloses := s.remoteCloses + (if s.hasRemote then 1 else 0))
  {
  }
}
