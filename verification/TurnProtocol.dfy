/**
 The interactive turn protocol of the broker (handlePrompts and handleTurnComplete in
 internal/broker/interactive.go, InteractiveRouter in internal/broker/router.go) for one run and
 one broker lifetime. Handlers interleave freely. Status reads may be stale; status writes are
 merge patches without a resourceVersion, so they never conflict and touch only the fields the
 handler changed.
 */
module TurnProtocol {
  import opened Wrappers

  // ------------------------------------------------------ concurrent handlers

  datatype Event =
    | Allocated(turn: int)      // Router.NextTurnSeq returned turn
    | Submitted(turn: int)      // prompt-submitted audit written
    | Accepted(turn: int)       // adapter answered 2xx
    | Patched(turn: int)        // post-forward status patch landed
    | Cleared                   // turn-complete status patch landed
    | Completed(turn: int)      // prompt-completed audit written

  datatype Status = Status(current: Option<int>, promptCount: int)

  /** A handler between two of its effects. */
  datatype Handler =
    | Admitted                            // handlePrompts past the in-flight guard
    | HasTurn(turn: int)                  // turn allocated
    | Audited(turn: int)                  // prompt-submitted written
    | Forwarded(turn: int)                // adapter accepted
    | Rebased(turn: int, base: Status)    // re-read the status to patch
    | Polling                             // handleTurnComplete waiting for a turn
    | Clearing(turn: int)                 // saw a turn, about to clear it
    | Reporting(turn: int)                // cleared, about to audit

  datatype State = State(turnSeq: int, versions: seq<Status>, trace: seq<Event>, handlers: map<nat, Handler>)

  const INIT := State(0, [Status(None, 0)], [], map[])

  datatype Step =
    | ArrivePrompt(h: nat, seen: nat)     // guard evaluated on version `seen`
    | Allocate(h: nat)
    | Audit(h: nat, ok: bool)
    | Forward(h: nat, status: int)
    | Rebase(h: nat, seen: nat)
    | PatchTurn(h: nat, ok: bool)
    | ArriveComplete(h: nat)
    | Poll(h: nat, seen: nat)
    | GiveUp(h: nat)
    | PatchClear(h: nat, ok: bool)
    | AuditComplete(h: nat, ok: bool)

  predicate At(s: State, h: nat, p: Handler -> bool) {
    h in s.handlers && p(s.handlers[h])
  }

  predicate Enabled(s: State, step: Step) {
    match step
    case ArrivePrompt(h, seen) => h !in s.handlers && seen < |s.versions|
    case Allocate(h) => At(s, h, (x: Handler) => x.Admitted?)
    case Audit(h, _) => At(s, h, (x: Handler) => x.HasTurn?)
    case Forward(h, _) => At(s, h, (x: Handler) => x.Audited?)
    case Rebase(h, seen) => At(s, h, (x: Handler) => x.Forwarded?) && seen < |s.versions|
    case PatchTurn(h, _) => At(s, h, (x: Handler) => x.Rebased?) && s.versions != []
    case ArriveComplete(h) => h !in s.handlers
    case Poll(h, seen) => At(s, h, (x: Handler) => x.Polling?) && seen < |s.versions|
    case GiveUp(h) => At(s, h, (x: Handler) => x.Polling?)
    case PatchClear(h, _) => At(s, h, (x: Handler) => x.Clearing?) && s.versions != []
    case AuditComplete(h, _) => At(s, h, (x: Handler) => x.Reporting?)
  }

  function Latest(s: State): Status
    requires s.versions != []
  {
    s.versions[|s.versions| - 1]
  }

  function Leave(s: State, h: nat): State {
    s.(handlers := s.handlers - {h})
  }

  function Move(s: State, h: nat, x: Handler): State {
    s.(handlers := s.handlers[h := x])
  }

  function Emit(s: State, e: Event): State {
    s.(trace := s.trace + [e])
  }

  function Store(s: State, v: Status): State {
    s.(versions := s.versions + [v])
  }

  function Do(s: State, step: Step): State
    requires Enabled(s, step)
  {
    match step
    case ArrivePrompt(h, seen) => if s.versions[seen].current.Some? then s else Move(s, h, Admitted)
    case Allocate(h) =>
      var turn := Int32(s.turnSeq + 1);
      Emit(Move(s, h, HasTurn(turn)), Allocated(turn)).(turnSeq := turn)
    case Audit(h, ok) =>
      var turn := s.handlers[h].turn;
      if ok then Emit(Move(s, h, Audited(turn)), Submitted(turn)) else Leave(s, h)
    case Forward(h, status) =>
      var turn := s.handlers[h].turn;
      if 200 <= status < 300 then Emit(Move(s, h, Forwarded(turn)), Accepted(turn)) else Leave(s, h)
    case Rebase(h, seen) => Move(s, h, Rebased(s.handlers[h].turn, s.versions[seen]))
    case PatchTurn(h, ok) =>
      var x := s.handlers[h];
      if ok then Store(Emit(Leave(s, h), Patched(x.turn)),
                       Status(if x.base.current == Some(x.turn) then Latest(s).current else Some(x.turn),
                              Int32(x.base.promptCount + 1)))
      else Leave(s, h)
    case ArriveComplete(h) => Move(s, h, Polling)
    case Poll(h, seen) =>
      (match s.versions[seen].current
       case Some(turn) => Move(s, h, Clearing(turn))
       case None => s)
    case GiveUp(h) => Leave(s, h)
    case PatchClear(h, ok) =>
      if ok then Store(Emit(Move(s, h, Reporting(s.handlers[h].turn)), Cleared), Latest(s).(current := None))
      else Leave(s, h)
    case AuditComplete(h, ok) =>
      if ok then Emit(Leave(s, h), Completed(s.handlers[h].turn)) else Leave(s, h)
  }

  predicate ValidRun(s: State, steps: seq<Step>)
    decreases |steps|
  {
    steps == [] || (Enabled(s, steps[0]) && ValidRun(Do(s, steps[0]), steps[1..]))
  }

  function Run(s: State, steps: seq<Step>): State
    requires ValidRun(s, steps)
    decreases |steps|
  {
    if steps == [] then s else Run(Do(s, steps[0]), steps[1..])
  }

  /** How far turn `q` got: 1 allocated, 2 then audited as submitted, 3 then accepted. */
  function Stage(trace: seq<Event>, q: int): (n: nat)
    ensures n <= 3
  {
    if trace == [] then 0
    else
      var n := Stage(trace[..|trace| - 1], q);
      var e := trace[|trace| - 1];
      if (n == 0 && e == Allocated(q)) || (n == 1 && e == Submitted(q)) || (n == 2 && e == Accepted(q))
        then n + 1 else n
  }

  /** The stage a handler's turn must have reached. */
  function Needs(x: Handler): nat {
    match x
    case Admitted => 0
    case Polling => 0
    case HasTurn(_) => 1
    case Audited(_) => 2
    case _ => 3
  }

  predicate HandlerOk(trace: seq<Event>, x: Handler) {
    x.Admitted? || x.Polling? || Stage(trace, x.turn) >= Needs(x)
  }

  predicate StatusOk(trace: seq<Event>, v: Status) {
    v.current.Some? ==> Stage(trace, v.current.value) == 3
  }

  /** The turns allocated so far, in order. */
  function Turns(trace: seq<Event>): seq<int> {
    if trace == [] then []
    else
      var rest := Turns(trace[..|trace| - 1]);
      match trace[|trace| - 1]
      case Allocated(q) => rest + [q]
      case _ => rest
  }

  ghost predicate CompletionsEarned(trace: seq<Event>) {
    forall m :: 0 <= m < |trace| && trace[m].Completed? ==> Stage(trace[..m], trace[m].turn) == 3
  }

  ghost predicate Inv(s: State) {
    && s.versions != []
    && (forall i :: 0 <= i < |s.versions| ==> StatusOk(s.trace, s.versions[i]))
    && (forall h :: h in s.handlers ==> HandlerOk(s.trace, s.handlers[h]))
    && CompletionsEarned(s.trace)
    && TurnsOk(s.turnSeq, Turns(s.trace))
  }

  /** The counter and the turns it has handed out. */
  predicate TurnsOk(turnSeq: int, turns: seq<int>) {
    turnSeq == Int32(|turns|) && forall i :: 0 <= i < |turns| ==> turns[i] == Int32(i + 1)
  }

  lemma StageGrows(trace: seq<Event>, e: Event, q: int)
    ensures Stage(trace, q) <= Stage(trace + [e], q)
    ensures e == Allocated(q) ==> Stage(trace + [e], q) >= 1
    ensures e == Submitted(q) && Stage(trace, q) >= 1 ==> Stage(trace + [e], q) >= 2
    ensures e == Accepted(q) && Stage(trace, q) >= 2 ==> Stage(trace + [e], q) == 3
  {
    assert (trace + [e])[..|trace|] == trace;
  }

  /** What every handler and stored status relied on survives one more event. */
  lemma EmitKeepsFacts(s: State, e: Event, t: State)
    requires Inv(s) && t.trace == s.trace + [e]
    ensures forall i :: 0 <= i < |s.versions| ==> StatusOk(t.trace, s.versions[i])
    ensures forall h :: h in s.handlers ==> HandlerOk(t.trace, s.handlers[h])
    ensures (e.Completed? ==> Stage(s.trace, e.turn) == 3) ==> CompletionsEarned(t.trace)
    ensures Turns(t.trace) == Turns(s.trace) + if e.Allocated? then [e.turn] else []
  {
    assert t.trace[..|s.trace|] == s.trace;
    forall q ensures Stage(s.trace, q) <= Stage(t.trace, q) {
      StageGrows(s.trace, e, q);
    }
    forall m | (e.Completed? ==> Stage(s.trace, e.turn) == 3) && 0 <= m < |t.trace| && t.trace[m].Completed?
      ensures Stage(t.trace[..m], t.trace[m].turn) == 3
    {
      assert t.trace[..m] == s.trace[..m];
    }
  }

  lemma QuietStepKeepsInv(s: State, step: Step)
    requires Inv(s) && Enabled(s, step) && Do(s, step).trace == s.trace
    ensures Inv(Do(s, step))
  {
  }

  lemma OthersUnmoved(s: State, step: Step, g: nat)
    requires Enabled(s, step) && g != step.h && g in Do(s, step).handlers
    ensures g in s.handlers && Do(s, step).handlers[g] == s.handlers[g]
  {
  }

  /** The handler that emitted an event has reached the stage of its next program point. */
  lemma ActorOk(s: State, step: Step, e: Event)
    requires Enabled(s, step) && step.h in s.handlers && HandlerOk(s.trace, s.handlers[step.h])
    requires Do(s, step).trace == s.trace + [e]
    ensures var t := Do(s, step);
            && (step.h in t.handlers ==> HandlerOk(t.trace, t.handlers[step.h]))
            && (e.Completed? ==> Stage(s.trace, e.turn) == 3)
            && (step.PatchTurn? ==> Stage(t.trace, s.handlers[step.h].turn) == 3)
  {
    assert Do(s, step).trace[|s.trace|] == e;
    StageGrows(s.trace, e, if step.Allocate? then e.turn else s.handlers[step.h].turn);
  }

  lemma AllocateKeepsTurns(turnSeq: int, turns: seq<int>)
    requires TurnsOk(turnSeq, turns)
    ensures TurnsOk(Int32(turnSeq + 1), turns + [Int32(turnSeq + 1)])
  {
    Int32Step(|turns|);
  }

  lemma EventStepKeepsTurns(s: State, step: Step, e: Event)
    requires Inv(s) && Enabled(s, step) && Do(s, step).trace == s.trace + [e]
    requires Turns(Do(s, step).trace) == Turns(s.trace) + if e.Allocated? then [e.turn] else []
    ensures TurnsOk(Do(s, step).turnSeq, Turns(Do(s, step).trace))
  {
    assert Do(s, step).trace[|s.trace|] == e;
    if step.Allocate? {
      AllocateKeepsTurns(s.turnSeq, Turns(s.trace));
    }
  }

  lemma EventStepKeepsInv(s: State, step: Step, e: Event)
    requires Inv(s) && Enabled(s, step) && Do(s, step).trace == s.trace + [e]
    ensures Inv(Do(s, step))
  {
    var t := Do(s, step);
    assert step.h in s.handlers;
    EmitKeepsFacts(s, e, t);
    EventStepKeepsTurns(s, step, e);
    ActorOk(s, step, e);
    forall h | h in t.handlers && h != step.h ensures HandlerOk(t.trace, t.handlers[h]) {
      OthersUnmoved(s, step, h);
    }
    assert t.versions == s.versions || t.versions[..|s.versions|] == s.versions;
  }

  lemma StepKeepsInv(s: State, step: Step)
    requires Inv(s) && Enabled(s, step)
    ensures Inv(Do(s, step))
  {
    var t := Do(s, step);
    if t.trace == s.trace {
      QuietStepKeepsInv(s, step);
    } else {
      EventStepKeepsInv(s, step, t.trace[|s.trace|]);
    }
  }

  lemma {:induction false} RunKeepsInv(s: State, steps: seq<Step>)
    requires Inv(s) && ValidRun(s, steps)
    ensures Inv(Run(s, steps))
    decreases |steps|
  {
    if steps != [] {
      StepKeepsInv(s, steps[0]);
      RunKeepsInv(Do(s, steps[0]), steps[1..]);
    }
  }

  /** Turn `q` was allocated, then audited as submitted, then accepted. */
  ghost predicate Earned(trace: seq<Event>, q: int) {
    exists i, j, k :: 0 <= i < j < k < |trace|
      && trace[i] == Allocated(q) && trace[j] == Submitted(q) && trace[k] == Accepted(q)
  }

  /** The event that took turn `q` to stage `n`. */
  lemma {:induction false} FindStage(trace: seq<Event>, q: int, n: nat) returns (k: nat)
    requires 1 <= n <= 3 && Stage(trace, q) >= n
    ensures k < |trace| && Stage(trace[..k], q) == n - 1
    ensures trace[k] == match n case 1 => Allocated(q) case 2 => Submitted(q) case _ => Accepted(q)
    decreases |trace|
  {
    var init := trace[..|trace| - 1];
    if Stage(init, q) >= n {
      k := FindStage(init, q, n);
      assert init[..k] == trace[..k];
    } else {
      k := |trace| - 1;
    }
  }

  lemma StageThreeIsEarned(trace: seq<Event>, q: int)
    requires Stage(trace, q) == 3
    ensures Earned(trace, q)
  {
    var k := FindStage(trace, q, 3);
    var j := FindStage(trace[..k], q, 2);
    assert trace[..k][..j] == trace[..j] && trace[..k][j] == trace[j];
    var i := FindStage(trace[..j], q, 1);
    assert trace[..j][i] == trace[i];
  }

  /**
   Provenance in every interleaving: a prompt-completed audit names a turn that was allocated,
   then audited as submitted, then accepted by the adapter, all before it.
   */
  lemma CompletedTurnsWereEarned(steps: seq<Step>, m: nat)
    requires ValidRun(INIT, steps)
    requires m < |Run(INIT, steps).trace| && Run(INIT, steps).trace[m].Completed?
    ensures Earned(Run(INIT, steps).trace[..m], Run(INIT, steps).trace[m].turn)
  {
    RunKeepsInv(INIT, steps);
    StageThreeIsEarned(Run(INIT, steps).trace[..m], Run(INIT, steps).trace[m].turn);
  }

  lemma {:induction false} ValidPrefix(s: State, steps: seq<Step>, i: nat)
    requires ValidRun(s, steps) && i <= |steps|
    ensures ValidRun(s, steps[..i])
    decreases |steps|
  {
    if i > 0 {
      ValidPrefix(Do(s, steps[0]), steps[1..], i - 1);
      assert steps[..i][1..] == steps[1..][..i - 1];
    }
  }

  /** Step `i` of the run forwards turn `q`, the adapter answers 2xx, and the trace has `k` events by then. */
  predicate Answered2xx(s: State, steps: seq<Step>, i: nat, q: int, k: nat)
    requires ValidRun(s, steps) && i < |steps| && ValidRun(s, steps[..i])
  {
    var before := Run(s, steps[..i]);
    && steps[i].Forward? && 200 <= steps[i].status <= 299
    && steps[i].h in before.handlers && before.handlers[steps[i].h] == Audited(q) && |before.trace| == k
  }

  /** Every accepted event comes from a forward that the adapter answered with 2xx. */
  lemma {:induction false} AcceptedWas2xx(s: State, steps: seq<Step>, k: nat) returns (i: nat)
    requires ValidRun(s, steps) && |s.trace| <= k < |Run(s, steps).trace| && Run(s, steps).trace[k].Accepted?
    ensures i < |steps| && ValidRun(s, steps[..i]) && Answered2xx(s, steps, i, Run(s, steps).trace[k].turn, k)
    decreases |steps|
  {
    var t, rest := Do(s, steps[0]), steps[1..];
    TraceGrows(t, rest);
    if k < |t.trace| {
      i := 0;
      assert steps[..0] == [] && Run(s, steps).trace[k] == t.trace[k];
    } else {
      var j := AcceptedWas2xx(t, rest, k);
      i := j + 1;
      ValidPrefix(s, steps, i);
      assert steps[..i][1..] == rest[..j] && steps[..i][0] == steps[0];
    }
  }

  /**
   What accepted means, over the steps of a run: before every prompt-completed audit the adapter
   answered the forward of that turn, audited by then, with a status from 200 to 299.
   */
  lemma CompletedTurnsWere2xx(steps: seq<Step>, m: nat) returns (i: nat, k: nat)
    requires ValidRun(INIT, steps)
    requires m < |Run(INIT, steps).trace| && Run(INIT, steps).trace[m].Completed?
    ensures i < |steps| && ValidRun(INIT, steps[..i]) && k < m
    ensures Answered2xx(INIT, steps, i, Run(INIT, steps).trace[m].turn, k)
  {
    CompletedTurnsWereEarned(steps, m);
    k := EarnedWasAccepted(Run(INIT, steps).trace, m, Run(INIT, steps).trace[m].turn);
    i := AcceptedWas2xx(INIT, steps, k);
  }

  lemma EarnedWasAccepted(trace: seq<Event>, m: nat, q: int) returns (k: nat)
    requires m <= |trace| && Earned(trace[..m], q)
    ensures k < m && trace[k] == Accepted(q)
  {
    var a, b, c :| 0 <= a < b < c < |trace[..m]|
      && trace[..m][a] == Allocated(q) && trace[..m][b] == Submitted(q) && trace[..m][c] == Accepted(q);
    k := c;
  }

  /** No forward is answered with 2xx. */
  predicate AllRefused(steps: seq<Step>) {
    forall i :: 0 <= i < |steps| && steps[i].Forward? ==> steps[i].status < 200 || steps[i].status > 299
  }

  /** Nothing beyond an audited prompt or a waiting callback. */
  ghost predicate NothingAccepted(s: State) {
    && s.versions == [Status(None, 0)]
    && (forall h :: h in s.handlers ==>
          s.handlers[h].Admitted? || s.handlers[h].HasTurn? || s.handlers[h].Audited? || s.handlers[h].Polling?)
    && (forall e :: e in s.trace ==> e.Allocated? || e.Submitted?)
  }

  lemma RefusedStep(s: State, step: Step)
    requires NothingAccepted(s) && Enabled(s, step)
    requires step.Forward? ==> step.status < 200 || step.status > 299
    ensures NothingAccepted(Do(s, step))
  {
  }

  lemma {:induction false} RefusedRun(s: State, steps: seq<Step>)
    requires NothingAccepted(s) && ValidRun(s, steps) && AllRefused(steps)
    ensures NothingAccepted(Run(s, steps))
    decreases |steps|
  {
    if steps != [] {
      RefusedStep(s, steps[0]);
      RefusedRun(Do(s, steps[0]), steps[1..]);
    }
  }

  /** A run in which the adapter never answers 2xx patches, clears and completes nothing. */
  lemma RefusedPromptsLeaveNoTrace(steps: seq<Step>)
    requires ValidRun(INIT, steps) && AllRefused(steps)
    ensures Run(INIT, steps).versions == [Status(None, 0)]
    ensures forall e :: e in Run(INIT, steps).trace ==> !e.Accepted? && !e.Patched? && !e.Cleared? && !e.Completed?
  {
    RefusedRun(INIT, steps);
  }

  /**
   Turns are unique and strictly increasing, from 1, exactly as long as the int32 counter has not
   wrapped.
   */
  lemma TurnsStrictlyIncrease(steps: seq<Step>)
    requires ValidRun(INIT, steps)
    ensures
      var q := Turns(Run(INIT, steps).trace);
      (forall i, j :: 0 <= i < j < |q| ==> q[i] < q[j]) <==> |q| <= 0x7fff_ffff
  {
    RunKeepsInv(INIT, steps);
    var q := Turns(Run(INIT, steps).trace);
    if |q| <= 0x7fff_ffff {
      forall i, j | 0 <= i < j < |q| ensures q[i] < q[j] {
        assert q[i] == Int32(i + 1) == i + 1 && q[j] == Int32(j + 1) == j + 1;
      }
    } else {
      assert q[0] == Int32(1) == 1;
      assert q[0x7fff_ffff] == Int32(0x8000_0000) == -0x8000_0000;
      assert q[0] > q[0x7fff_ffff];
    }
  }

  lemma {:induction false} RunAppend(s: State, a: seq<Step>, b: seq<Step>)
    requires ValidRun(s, a) && ValidRun(Run(s, a), b)
    ensures ValidRun(s, a + b) && Run(s, a + b) == Run(Run(s, a), b)
    decreases |a|
  {
    if a == [] {
      assert a + b == b;
    } else {
      assert (a + b)[1..] == a[1..] + b;
      RunAppend(Do(s, a[0]), a[1..], b);
    }
  }

  lemma ThreeSteps(s: State, a: Step, b: Step, c: Step)
    requires Enabled(s, a) && Enabled(Do(s, a), b) && Enabled(Do(Do(s, a), b), c)
    ensures ValidRun(s, [a, b, c]) && Run(s, [a, b, c]) == Do(Do(Do(s, a), b), c)
  {
    var s2 := Do(Do(s, a), b);
    assert [c][1..] == [] && [b, c][1..] == [c] && [a, b, c][1..] == [b, c];
    assert ValidRun(s2, [c]) && Run(s2, [c]) == Do(s2, c);
    assert ValidRun(Do(s, a), [b, c]) && Run(Do(s, a), [b, c]) == Do(s2, c);
  }

  /** A prompt whose audit fails uses up a turn and changes nothing else. */
  lemma AllocateOnce(s: State) returns (steps: seq<Step>)
    requires s.handlers == map[] && s.versions == [Status(None, 0)]
    ensures ValidRun(s, steps)
    ensures var t := Run(s, steps);
            t.handlers == map[] && t.versions == s.versions && Turns(t.trace) == Turns(s.trace) + [Int32(s.turnSeq + 1)]
  {
    ThreeSteps(s, ArrivePrompt(0, 0), Allocate(0), Audit(0, false));
    steps := [ArrivePrompt(0, 0), Allocate(0), Audit(0, false)];
    assert Run(s, steps).trace[..|s.trace|] == s.trace;
  }

  /** Every number of turns can be allocated. */
  lemma {:induction false} TurnsCanReach(n: nat) returns (steps: seq<Step>)
    ensures ValidRun(INIT, steps) && |Turns(Run(INIT, steps).trace)| == n
    ensures Run(INIT, steps).handlers == map[] && Run(INIT, steps).versions == [Status(None, 0)]
  {
    steps := [];
    if n > 0 {
      var a := TurnsCanReach(n - 1);
      var b := AllocateOnce(Run(INIT, a));
      RunAppend(INIT, a, b);
      steps := a + b;
    }
  }

  /** So a run whose turn numbers stop increasing exists. */
  lemma TurnNumbersCanWrap() returns (steps: seq<Step>)
    ensures ValidRun(INIT, steps)
    ensures var q := Turns(Run(INIT, steps).trace); exists i, j :: 0 <= i < j < |q| && q[j] <= q[i]
  {
    steps := TurnsCanReach(0x8000_0000);
    TurnsStrictlyIncrease(steps);
  }

  // ------------------------------------------------------ callback against patch

  /**
   One turn whose completion callback races the post-forward patch, with a clock in
   milliseconds. `deadline` is the callback's seqWaitDeadline.
   */
  datatype Race = Race(turn: int, deadline: nat, clock: nat, landed: bool,
                         current: Option<int>, pc: Callback, completions: nat)

  datatype Callback =
    | Getting                             // about to read the status
    | Checking(readAt: nat)               // read nil, about to compare the clock with the deadline
    | Removing(seen: int)                 // saw a turn, about to clear it
    | Logging(seen: int)                  // cleared, about to audit
    | Finished

  datatype Act = Tick(ms: nat) | Land | Get | Check | Remove | Log

  predicate Can(r: Race, a: Act) {
    match a
    case Tick(_) => true
    case Land => !r.landed
    case Get => r.pc.Getting?
    case Check => r.pc.Checking?
    case Remove => r.pc.Removing?
    case Log => r.pc.Logging?
  }

  function Next(r: Race, a: Act): Race
    requires Can(r, a)
  {
    match a
    case Tick(ms) => r.(clock := r.clock + ms)
    case Land => r.(landed := true, current := Some(r.turn))
    case Get => r.(pc := if r.current.Some? then Removing(r.current.value) else Checking(r.clock))
    case Check => r.(pc := if r.clock > r.deadline then Finished else Getting)
    case Remove => r.(pc := Logging(r.pc.seen), current := None)
    case Log => r.(pc := Finished, completions := r.completions + 1)
  }

  predicate Plays(r: Race, acts: seq<Act>, t: Race)
    decreases |acts|
  {
    if acts == [] then r == t else Can(r, acts[0]) && Plays(Next(r, acts[0]), acts[1..], t)
  }

  function Start(turn: int, deadline: nat): Race {
    Race(turn, deadline, 0, false, None, Getting, 0)
  }

  /** Some read of the callback happened after the patch landed. */
  ghost predicate ReadAfterLand(acts: seq<Act>) {
    exists i, j :: 0 <= i < j < |acts| && acts[i].Land? && acts[j].Get?
  }

  /** Nothing has been seen yet, the turn is being completed, or it is complete. */
  predicate RaceInv(r: Race, read: bool) {
    if !read then
      (r.pc.Getting? || r.pc.Checking? || r.pc.Finished?) && r.completions == 0
      && r.current == (if r.landed then Some(r.turn) else None)
    else
      r.landed &&
      match r.pc
      case Removing(q) => q == r.turn && r.current == Some(q) && r.completions == 0
      case Logging(q) => q == r.turn && r.current == None && r.completions == 0
      case Finished => r.current == None && r.completions == 1
      case _ => false
  }

  /** Some read happens after the patch, given whether it has already landed. */
  predicate Sees(landed: bool, acts: seq<Act>)
    decreases |acts|
  {
    acts != [] && ((landed && acts[0].Get?) || Sees(landed || acts[0].Land?, acts[1..]))
  }

  lemma {:induction false} RaceOutcome(r: Race, read: bool, acts: seq<Act>, t: Race)
    requires Plays(r, acts, t) && RaceInv(r, read)
    ensures t.turn == r.turn && RaceInv(t, read || Sees(r.landed, acts))
    decreases |acts|
  {
    if acts != [] {
      RaceOutcome(Next(r, acts[0]), read || (r.landed && acts[0].Get?), acts[1..], t);
    }
  }

  lemma {:induction false} SeesIsReadAfterLand(landed: bool, acts: seq<Act>)
    ensures Sees(landed, acts) <==> ReadAfterLand(acts) || (landed && exists j :: 0 <= j < |acts| && acts[j].Get?)
    decreases |acts|
  {
    if acts != [] {
      var rest := acts[1..];
      SeesIsReadAfterLand(landed || acts[0].Land?, rest);
      assert acts == [acts[0]] + rest;
      if ReadAfterLand(rest) {
        var i, j :| 0 <= i < j < |rest| && rest[i].Land? && rest[j].Get?;
        assert acts[i + 1].Land? && acts[j + 1].Get?;
      } else if j :| 0 <= j < |rest| && rest[j].Get? {
        assert acts[j + 1].Get?;
      }
      if ReadAfterLand(acts) {
        var i, j :| 0 <= i < j < |acts| && acts[i].Land? && acts[j].Get?;
        assert rest[j - 1].Get? && (i > 0 ==> rest[i - 1].Land?);
      } else if j :| 0 < j < |acts| && acts[j].Get? {
        assert rest[j - 1].Get?;
      }
    }
  }

  /**
   The exact condition for a stranded turn: when both handlers are finished the turn is cleared
   with exactly one completion if the callback read the status after the patch landed, and it
   stays set with no completion if it did not.
   */
  lemma TurnStrandedIffNoReadAfterPatch(turn: int, deadline: nat, acts: seq<Act>, t: Race)
    requires Plays(Start(turn, deadline), acts, t) && t.landed && t.pc.Finished?
    ensures ReadAfterLand(acts) <==> t.current == None
    ensures t.completions == if ReadAfterLand(acts) then 1 else 0
    ensures t.current.Some? ==> t.current.value == turn
  {
    RaceOutcome(Start(turn, deadline), false, acts, t);
    SeesIsReadAfterLand(false, acts);
  }

  /** The patch landed at or before `latest`, and every deadline check follows its read within `lag`. */
  predicate Timely(r: Race, acts: seq<Act>, latest: nat, lag: nat)
    decreases |acts|
  {
    acts == [] ||
    (Can(r, acts[0])
     && (acts[0].Land? ==> r.clock <= latest)
     && (acts[0].Check? && r.pc.Checking? ==> r.clock <= r.pc.readAt + lag)
     && Timely(Next(r, acts[0]), acts[1..], latest, lag))
  }

  lemma {:induction false} TimelyRace(r: Race, acts: seq<Act>, t: Race, latest: nat, lag: nat)
    requires Plays(r, acts, t) && Timely(r, acts, latest, lag) && latest + lag <= r.deadline
    requires t.landed && t.pc.Finished?
    requires (RaceInv(r, false) && !r.pc.Finished?
              && (r.pc.Checking? && r.landed ==> r.pc.readAt <= latest)
              && (r.pc.Checking? ==> r.pc.readAt <= r.clock))
             || RaceInv(r, true) || (r.pc.Finished? && RaceInv(r, false) && !r.landed && r.clock > latest)
    ensures t.current == None && t.completions == 1
    decreases |acts|
  {
    if acts != [] {
      TimelyRace(Next(r, acts[0]), acts[1..], t, latest, lag);
    }
  }

  /**
   No stranded turn: if the patch lands at least `lag` before the poll deadline, where `lag`
   bounds the time from a status read to the check after it, the turn ends cleared with exactly
   one completion in every interleaving.
   */
  lemma TimelyPatchIsNotStranded(turn: int, deadline: nat, acts: seq<Act>, t: Race, latest: nat, lag: nat)
    requires Plays(Start(turn, deadline), acts, t) && t.landed && t.pc.Finished?
    requires Timely(Start(turn, deadline), acts, latest, lag) && latest + lag <= deadline
    ensures t.current == None && t.completions == 1
  {
    TimelyRace(Start(turn, deadline), acts, t, latest, lag);
  }

  /**
   The bound is tight: if the latest landing time plus the longest read-to-check delay exceeds the
   deadline, a schedule within both strands the turn. With latest == deadline this is a patch that
   lands before the poll deadline.
   */
  lemma LatePatchCanStrand(turn: int, deadline: nat, latest: nat, lag: nat) returns (acts: seq<Act>, t: Race)
    requires latest + lag > deadline
    ensures acts == [Tick(latest), Get, Land, Tick(lag), Check]
    ensures Plays(Start(turn, deadline), acts, t) && Timely(Start(turn, deadline), acts, latest, lag)
    ensures t.landed && t.pc.Finished? && t.current == Some(turn) && t.completions == 0
  {
    var r0 := Start(turn, deadline);
    acts := [Tick(latest), Get, Land, Tick(lag), Check];
    var r2 := r0.(clock := latest, pc := Checking(latest));
    var r3 := r2.(landed := true, current := Some(turn));
    t := r3.(clock := latest + lag, pc := Finished);
    assert Plays(r3, [Tick(lag), Check], t) && Timely(r3, [Tick(lag), Check], latest, lag);
    assert acts[1..][1..][1..] == [Tick(lag), Check];
    assert acts[1..][1..] == [Land, Tick(lag), Check];
    assert Plays(r2, [Land, Tick(lag), Check], t) && Timely(r2, [Land, Tick(lag), Check], latest, lag);
  }

  /** No schedule within `latest` and `lag` strands the turn. */
  ghost predicate NeverStrands(turn: int, deadline: nat, latest: nat, lag: nat) {
    forall acts, t ::
      (Plays(Start(turn, deadline), acts, t) && Timely(Start(turn, deadline), acts, latest, lag)
       && t.landed && t.pc.Finished?)
      ==> t.current == None && t.completions == 1
  }

  /**
   The exact condition in the times alone: no schedule strands the turn if and only if the latest
   landing time plus the longest read-to-check delay does not exceed the poll deadline.
   */
  lemma NeverStrandsIff(turn: int, deadline: nat, latest: nat, lag: nat)
    ensures NeverStrands(turn, deadline, latest, lag) <==> latest + lag <= deadline
  {
    if latest + lag <= deadline {
      forall acts, t | Plays(Start(turn, deadline), acts, t) && Timely(Start(turn, deadline), acts, latest, lag)
                       && t.landed && t.pc.Finished?
        ensures t.current == None && t.completions == 1
      {
        TimelyPatchIsNotStranded(turn, deadline, acts, t, latest, lag);
      }
    } else {
      var acts, t := LatePatchCanStrand(turn, deadline, latest, lag);
    }
  }

  // ------------------------------------------------------ repeated callbacks

  /** Callback `h` reads the newest status, its writes succeed, and no other handler is called `h`. */
  predicate Unhindered(s: State, h: nat, steps: seq<Step>)
    requires ValidRun(s, steps)
    decreases |steps|
  {
    steps == [] ||
    (&& (steps[0].h == h ==>
           match steps[0]
           case Poll(_, seen) => seen == |s.versions| - 1
           case PatchClear(_, ok) => ok
           case AuditComplete(_, ok) => ok
           case ArrivePrompt(_, _) => false
           case ArriveComplete(_) => false
           case _ => true)
     && Unhindered(Do(s, steps[0]), h, steps[1..]))
  }

  /** The turn that the first successful status read of callback `h` finds. */
  function ReadTurn(s: State, h: nat, steps: seq<Step>): Option<int>
    requires ValidRun(s, steps)
    decreases |steps|
  {
    if steps == [] then None
    else if steps[0].Poll? && steps[0].h == h && s.versions[steps[0].seen].current.Some?
    then s.versions[steps[0].seen].current
    else ReadTurn(Do(s, steps[0]), h, steps[1..])
  }

  /** The turn that callback `h` audits as completed. */
  function Reports(s: State, h: nat, steps: seq<Step>): Option<int>
    requires ValidRun(s, steps)
    decreases |steps|
  {
    if steps == [] then None
    else if steps[0].AuditComplete? && steps[0].h == h then Some(s.handlers[h].turn)
    else Reports(Do(s, steps[0]), h, steps[1..])
  }

  lemma OwnStep(s: State, h: nat, step: Step)
    requires Enabled(s, step)
    ensures step.h != h ==> (h in Do(s, step).handlers <==> h in s.handlers)
                            && (h in s.handlers ==> Do(s, step).handlers[h] == s.handlers[h])
  {
  }

  /** What a callback will report, from where it stands. */
  lemma {:induction false} ReportFollowsRead(s: State, h: nat, steps: seq<Step>)
    requires ValidRun(s, steps) && Unhindered(s, h, steps) && h !in Run(s, steps).handlers
    requires h in s.handlers ==> s.handlers[h].Polling? || s.handlers[h].Clearing? || s.handlers[h].Reporting?
    ensures h !in s.handlers ==> Reports(s, h, steps) == None == ReadTurn(s, h, steps)
    ensures h in s.handlers && s.handlers[h].Polling? ==> Reports(s, h, steps) == ReadTurn(s, h, steps)
    ensures h in s.handlers && !s.handlers[h].Polling? ==> Reports(s, h, steps) == Some(s.handlers[h].turn)
    decreases |steps|
  {
    if steps != [] {
      OwnStep(s, h, steps[0]);
      ReportFollowsRead(Do(s, steps[0]), h, steps[1..]);
    }
  }

  /** Turn `q` was patched into the status at event `from` or later. */
  predicate PatchedSince(trace: seq<Event>, from: nat, q: int) {
    exists i :: from <= i < |trace| && trace[i] == Patched(q)
  }

  /** The turns in the versions from `lo` on were all patched at event `from` or later. */
  predicate FreshVersions(s: State, lo: nat, from: nat) {
    lo < |s.versions| && forall i :: lo <= i < |s.versions| && s.versions[i].current.Some? ==>
                                     PatchedSince(s.trace, from, s.versions[i].current.value)
  }

  lemma PatchedSinceGrows(trace: seq<Event>, trace': seq<Event>, from: nat, q: int)
    requires PatchedSince(trace, from, q) && trace <= trace'
    ensures PatchedSince(trace', from, q)
  {
    var i :| from <= i < |trace| && trace[i] == Patched(q);
    assert trace'[i] == Patched(q);
  }

  lemma StepKeepsFreshVersions(s: State, step: Step, lo: nat, from: nat)
    requires Enabled(s, step) && FreshVersions(s, lo, from) && from <= |s.trace|
    ensures FreshVersions(Do(s, step), lo, from) && s.trace <= Do(s, step).trace
  {
    var t := Do(s, step);
    forall i | lo <= i < |t.versions| && t.versions[i].current.Some?
      ensures PatchedSince(t.trace, from, t.versions[i].current.value)
    {
      var q := t.versions[i].current.value;
      if i < |s.versions| {
        PatchedSinceGrows(s.trace, t.trace, from, q);
      } else if Latest(s).current == Some(q) {
        PatchedSinceGrows(s.trace, t.trace, from, q);
      } else {
        assert t.trace[|s.trace|] == Patched(q);
      }
    }
  }

  /** Turn `q` was patched and later completed, both at event `from` or later. */
  predicate CompletedSince(trace: seq<Event>, from: nat, q: int) {
    exists i, j :: from <= i < j < |trace| && trace[i] == Patched(q) && trace[j] == Completed(q)
  }

  lemma {:induction false} TraceGrows(s: State, steps: seq<Step>)
    requires ValidRun(s, steps)
    ensures s.trace <= Run(s, steps).trace
    decreases |steps|
  {
    if steps != [] {
      TraceGrows(Do(s, steps[0]), steps[1..]);
    }
  }

  lemma AuditCompletes(s: State, h: nat, steps: seq<Step>, from: nat)
    requires ValidRun(s, steps) && steps != [] && steps[0] == AuditComplete(h, true)
    requires PatchedSince(s.trace, from, s.handlers[h].turn)
    ensures CompletedSince(Run(s, steps).trace, from, s.handlers[h].turn)
  {
    var q, t := s.handlers[h].turn, Do(s, steps[0]);
    TraceGrows(t, steps[1..]);
    var i :| from <= i < |s.trace| && s.trace[i] == Patched(q);
    assert t.trace[i] == Patched(q) && t.trace[|s.trace|] == Completed(q);
  }

  lemma {:induction false} ReportedTurnIsFresh(s: State, h: nat, steps: seq<Step>, lo: nat, from: nat)
    requires ValidRun(s, steps) && Unhindered(s, h, steps) && FreshVersions(s, lo, from) && from <= |s.trace|
    requires h in s.handlers ==>
               s.handlers[h].Polling?
               || ((s.handlers[h].Clearing? || s.handlers[h].Reporting?)
                   && PatchedSince(s.trace, from, s.handlers[h].turn))
    ensures var r := Reports(s, h, steps); r.Some? ==> CompletedSince(Run(s, steps).trace, from, r.value)
    decreases |steps|
  {
    if steps != [] {
      var t := Do(s, steps[0]);
      OwnStep(s, h, steps[0]);
      StepKeepsFreshVersions(s, steps[0], lo, from);
      if steps[0].AuditComplete? && steps[0].h == h {
        AuditCompletes(s, h, steps, from);
      } else {
        if h in s.handlers && !s.handlers[h].Polling? {
          PatchedSinceGrows(s.trace, t.trace, from, s.handlers[h].turn);
        }
        ReportedTurnIsFresh(t, h, steps[1..], lo, from);
      }
    }
  }

  /** Callback `h` has just arrived and the newest status holds no turn. */
  predicate ArrivedLate(s: State, h: nat) {
    h in s.handlers && s.handlers[h].Polling? && s.versions != [] && Latest(s).current == None
  }

  /**
   A callback that arrives when no turn is in flight audits a completion exactly when one of its
   reads finds a turn, and that turn was patched after the callback arrived.
   */
  lemma LateCallbackCompletesIffItReads(s: State, h: nat, steps: seq<Step>)
    requires ArrivedLate(s, h) && ValidRun(s, steps) && Unhindered(s, h, steps) && h !in Run(s, steps).handlers
    ensures Reports(s, h, steps) == ReadTurn(s, h, steps)
    ensures var r := Reports(s, h, steps); r.Some? ==> CompletedSince(Run(s, steps).trace, |s.trace|, r.value)
  {
    ReportFollowsRead(s, h, steps);
    ReportedTurnIsFresh(s, h, steps, |s.versions| - 1, |s.trace|);
  }

  /** Some prompt handler patches its turn. */
  predicate Patches(steps: seq<Step>) {
    exists i :: 0 <= i < |steps| && steps[i].PatchTurn? && steps[i].ok
  }

  lemma {:induction false} NoPatchNoEvent(s: State, steps: seq<Step>, from: nat, q: int)
    requires ValidRun(s, steps) && !Patches(steps) && !PatchedSince(s.trace, from, q)
    ensures !PatchedSince(Run(s, steps).trace, from, q)
    decreases |steps|
  {
    if steps != [] {
      assert !(steps[0].PatchTurn? && steps[0].ok);
      assert forall i :: 0 <= i < |steps[1..]| ==> steps[1..][i] == steps[i + 1];
      NoPatchNoEvent(Do(s, steps[0]), steps[1..], from, q);
    }
  }

  /** Without a prompt patched meanwhile, a late callback adds nothing. */
  lemma RepeatCallbackAddsNothing(s: State, h: nat, steps: seq<Step>)
    requires ArrivedLate(s, h) && ValidRun(s, steps) && Unhindered(s, h, steps) && h !in Run(s, steps).handlers
    requires !Patches(steps)
    ensures Reports(s, h, steps) == None
  {
    LateCallbackCompletesIffItReads(s, h, steps);
    var r := Reports(s, h, steps);
    if r.Some? {
      NoPatchNoEvent(s, steps, |s.trace|, r.value);
    }
  }

  lemma Prepend(s: State, h: nat, a: Step, rest: seq<Step>)
    requires Enabled(s, a) && ValidRun(Do(s, a), rest) && Unhindered(Do(s, a), h, rest)
    ensures var steps := [a] + rest;
            && ValidRun(s, steps) && Run(s, steps) == Run(Do(s, a), rest)
            && (a.h != h ==> Unhindered(s, h, steps) && Reports(s, h, steps) == Reports(Do(s, a), h, rest))
            && ((a.Poll? && a.seen == |s.versions| - 1) || (a.PatchClear? && a.ok) ==>
                  Unhindered(s, h, steps) && Reports(s, h, steps) == Reports(Do(s, a), h, rest))
  {
    assert ([a] + rest)[1..] == rest;
  }

  /** A callback that finds turn `q` in the newest status clears it and audits it. */
  lemma CallbackRuns(s: State, h: nat, q: int) returns (steps: seq<Step>)
    requires h in s.handlers && s.handlers[h].Polling? && s.versions != [] && Latest(s).current == Some(q)
    ensures ValidRun(s, steps) && Unhindered(s, h, steps) && h !in Run(s, steps).handlers
    ensures Reports(s, h, steps) == Some(q)
  {
    var poll, clear, audit := Poll(h, |s.versions| - 1), PatchClear(h, true), AuditComplete(h, true);
    var s1 := Do(s, poll);
    var s2 := Do(s1, clear);
    var s3 := Do(s2, audit);
    assert ValidRun(s3, []) && [audit][1..] == [];
    assert ValidRun(s2, [audit]) && Unhindered(s2, h, [audit]) && Run(s2, [audit]) == s3;
    Prepend(s1, h, clear, [audit]);
    Prepend(s, h, poll, [clear] + [audit]);
    steps := [poll] + ([clear] + [audit]);
  }

  /** A prompt admitted while no turn is in flight, up to its submitted audit. */
  lemma PromptSubmitted(s: State, g: nat) returns (a: seq<Step>, t: State)
    requires s.versions != [] && Latest(s).current == None && g !in s.handlers
    ensures ValidRun(s, a) && Run(s, a) == t && forall i :: 0 <= i < |a| ==> a[i].h == g
    ensures t.versions == s.versions && t.handlers == s.handlers[g := Audited(Int32(s.turnSeq + 1))]
  {
    ThreeSteps(s, ArrivePrompt(g, |s.versions| - 1), Allocate(g), Audit(g, true));
    a := [ArrivePrompt(g, |s.versions| - 1), Allocate(g), Audit(g, true)];
    t := Run(s, a);
  }

  /** A submitted prompt that the adapter accepts puts its turn into the newest status. */
  lemma PromptPatched(s: State, g: nat, q: int) returns (a: seq<Step>, t: State)
    requires s.versions != [] && Latest(s).current == None && g in s.handlers && s.handlers[g] == Audited(q)
    ensures ValidRun(s, a) && Run(s, a) == t && forall i :: 0 <= i < |a| ==> a[i].h == g
    ensures t.versions != [] && Latest(t).current == Some(q) && t.handlers == s.handlers - {g}
  {
    ThreeSteps(s, Forward(g, 200), Rebase(g, |s.versions| - 1), PatchTurn(g, true));
    a := [Forward(g, 200), Rebase(g, |s.versions| - 1), PatchTurn(g, true)];
    t := Run(s, a);
  }

  /** Steps of other handlers may be put in front of a callback's. */
  lemma {:induction false} PrependOthers(s: State, h: nat, a: seq<Step>, rest: seq<Step>)
    requires ValidRun(s, a) && ValidRun(Run(s, a), rest) && Unhindered(Run(s, a), h, rest)
    requires forall i :: 0 <= i < |a| ==> a[i].h != h
    ensures ValidRun(s, a + rest) && Unhindered(s, h, a + rest) && Run(s, a + rest) == Run(Run(s, a), rest)
    ensures Reports(s, h, a + rest) == Reports(Run(s, a), h, rest)
    decreases |a|
  {
    if a == [] {
      assert a + rest == rest;
    } else {
      PrependOthers(Do(s, a[0]), h, a[1..], rest);
      Prepend(s, h, a[0], a[1..] + rest);
      assert [a[0]] + (a[1..] + rest) == a + rest;
    }
  }

  /**
   The callback names no turn: from every state with a late callback there is a schedule in which
   the next prompt starts meanwhile and the callback completes that prompt's turn.
   */
  lemma RepeatCallbackCompletesNextTurn(s: State, h: nat, g: nat) returns (steps: seq<Step>)
    requires ArrivedLate(s, h) && g !in s.handlers
    ensures ValidRun(s, steps) && Unhindered(s, h, steps) && h !in Run(s, steps).handlers
    ensures Reports(s, h, steps) == Some(Int32(s.turnSeq + 1))
  {
    var q := Int32(s.turnSeq + 1);
    var a, s1 := PromptSubmitted(s, g);
    var b, s2 := PromptPatched(s1, g, q);
    var rest := CallbackRuns(s2, h, q);
    PrependOthers(s1, h, b, rest);
    PrependOthers(s, h, a, b + rest);
    steps := a + (b + rest);
  }

  // ------------------------------------------------------ handlers that do not overlap

  /** The status and router state of one run, driven by handlers that run one after another. */
  class Broker {
    var turnSeq: int
    var current: Option<int>
    var promptCount: int
    var completed: seq<int>

    /** Every prompt counted is either completed or the one in flight. */
    ghost predicate Valid()
      reads this
    {
      promptCount == Int32(|completed| + if current.Some? then 1 else 0)
    }

    constructor ()
      ensures Valid() && current == None && promptCount == 0 && completed == [] && turnSeq == 0
    {
      turnSeq, current, promptCount, completed := 0, None, 0, [];
    }

    /** handlePrompts with current reads: `upstream` is the adapter's status code. */
    method HandlePrompts(auditOk: bool, upstream: int) returns (code: int)
      requires Valid()
      modifies this
      ensures Valid() && completed == old(completed)
      ensures code == if old(current.Some?) then 409 else if !auditOk then 503 else upstream
      ensures old(current.Some?) ==> turnSeq == old(turnSeq) && current == old(current)
      ensures old(current.None?) ==> turnSeq == Int32(old(turnSeq) + 1)
      ensures old(current.None?) ==>
                current == if auditOk && 200 <= upstream < 300 then Some(turnSeq) else None
    {
      if current.Some? {
        return 409;
      }
      turnSeq := Int32(turnSeq + 1);
      if !auditOk {
        return 503;
      }
      if upstream < 200 || upstream >= 300 {
        return upstream;
      }
      Int32Step(|completed|);
      promptCount := Int32(promptCount + 1);
      current := Some(turnSeq);
      return upstream;
    }

    /** handleTurnComplete with current reads; the poll times out when no turn is in flight. */
    method HandleTurnComplete() returns (code: int)
      requires Valid()
      modifies this
      ensures Valid() && code == 202 && current == None
      ensures turnSeq == old(turnSeq) && promptCount == old(promptCount)
      ensures completed == old(completed) + if old(current).Some? then [old(current).value] else []
    {
      if current.Some? {
        completed := completed + [current.value];
        current := None;
      }
      return 202;
    }
  }

  // ------------------------------------------------------ the router's per-run counters

  datatype RunState = RunState(attached: int, turnSeq: int)

  function Key(ns: string, name: string): string {
    ns + "/" + name
  }

  /** Namespaces without a slash (as Kubernetes requires) keep runs apart. */
  lemma {:induction false} KeysAreDistinct(ns: string, name: string, ns': string, name': string)
    requires '/' !in ns && '/' !in ns' && Key(ns, name) == Key(ns', name')
    ensures ns == ns' && name == name'
  {
    var k := Key(ns, name);
    assert k[|ns|] == '/' && k[|ns'|] == '/';
    assert forall i :: 0 <= i < |ns| ==> k[i] == ns[i];
    assert forall i :: 0 <= i < |ns'| ==> k[i] == ns'[i];
    assert |ns| == |ns'|;
    assert k[..|ns|] == ns && k[..|ns|] == ns' && k[|ns| + 1..] == name && k[|ns| + 1..] == name';
  }

  class InteractiveRouter {
    var state: map<string, RunState>

    /** What the router knows about a run; a run never seen counts from zero. */
    function Of(ns: string, name: string): RunState
      reads this
    {
      if Key(ns, name) in state then state[Key(ns, name)] else RunState(0, 0)
    }

    method NextTurnSeq(ns: string, name: string) returns (turn: int)
      modifies this
      ensures turn == Int32(old(Of(ns, name)).turnSeq + 1)
      ensures Of(ns, name) == old(Of(ns, name)).(turnSeq := turn)
      ensures forall n, m :: Key(n, m) != Key(ns, name) ==> Of(n, m) == old(Of(n, m))
    {
      var s := Of(ns, name);
      turn := Int32(s.turnSeq + 1);
      state := state[Key(ns, name) := s.(turnSeq := turn)];
    }

    method OnAttach(ns: string, name: string)
      modifies this
      ensures Of(ns, name) == old(Of(ns, name)).(attached := Int32(old(Of(ns, name)).attached + 1))
      ensures forall n, m :: Key(n, m) != Key(ns, name) ==> Of(n, m) == old(Of(n, m))
    {
      var s := Of(ns, name);
      state := state[Key(ns, name) := s.(attached := Int32(s.attached + 1))];
    }

    method OnDetach(ns: string, name: string)
      modifies this
      ensures var a := old(Of(ns, name)).attached;
              Of(ns, name) == old(Of(ns, name)).(attached := if a > 0 then a - 1 else a)
      ensures forall n, m :: Key(n, m) != Key(ns, name) ==> Of(n, m) == old(Of(n, m))
    {
      var s := Of(ns, name);
      if s.attached > 0 {
        s := s.(attached := s.attached - 1);
      }
      state := state[Key(ns, name) := s];
    }

    constructor ()
      ensures state == map[]
    {
      state := map[];
    }
  }
}
