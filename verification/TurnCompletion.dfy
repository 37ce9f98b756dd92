/**
 How often a turn is completed, over every interleaving of prompt handlers and turn-complete
 callbacks (internal/broker/interactive.go): at most once exactly when callbacks do not overlap,
 read the newest status and the counter has not wrapped; and the balance of prompts and clears
 when handlers run one after another.
 */
module TurnCompletion {
  import opened Wrappers
  import opened TurnProtocol

  // ------------------------------------------------------ one completion per turn

  predicate IsCallback(x: Handler) {
    x.Polling? || x.Clearing? || x.Reporting?
  }

  /** A prompt handler whose turn is not yet in the status. */
  predicate IsPending(x: Handler) {
    x.HasTurn? || x.Audited? || x.Forwarded? || x.Rebased?
  }

  /** What a run may do: callbacks overlap, callbacks read old statuses, the turn counter wraps. */
  datatype Licence = Licence(overlap: bool, stale: bool, wrap: bool)

  predicate Allowed(s: State, step: Step, l: Licence) {
    match step
    case ArriveComplete(_) => l.overlap || forall h :: h in s.handlers ==> !IsCallback(s.handlers[h])
    case Poll(_, seen) => l.stale || seen == |s.versions| - 1
    case Allocate(_) => l.wrap || s.turnSeq < 0x7fff_ffff
    case _ => true
  }

  predicate AllAllowed(s: State, steps: seq<Step>, l: Licence)
    requires ValidRun(s, steps)
    decreases |steps|
  {
    steps == [] || (Allowed(s, steps[0], l) && AllAllowed(Do(s, steps[0]), steps[1..], l))
  }

  /** No turn is completed twice. */
  predicate NoRepeat(trace: seq<Event>) {
    forall i, j :: 0 <= i < j < |trace| && trace[i].Completed? && trace[j].Completed? ==> trace[i].turn != trace[j].turn
  }

  predicate HandlerOnce(trace: seq<Event>, turnSeq: int, current: Option<int>, x: Handler) {
    && (IsPending(x) ==> x.turn <= turnSeq && Patched(x.turn) !in trace)
    && (x.Rebased? && x.base.current.Some? ==> Patched(x.base.current.value) in trace)
    && (x.Clearing? || x.Reporting? ==> Patched(x.turn) in trace && Completed(x.turn) !in trace)
    && (x.Reporting? ==> current != Some(x.turn))
  }

  ghost predicate TraceOnce(trace: seq<Event>, turnSeq: int) {
    && turnSeq >= 0
    && (forall q :: Patched(q) in trace ==> q <= turnSeq)
    && (forall q :: Completed(q) in trace ==> Patched(q) in trace)
    && NoRepeat(trace)
  }

  predicate VersionOnce(trace: seq<Event>, v: Status) {
    v.current.Some? ==> Patched(v.current.value) in trace
  }

  /** At most one callback, and no two handlers with the same pending turn. */
  ghost predicate Separate(handlers: map<nat, Handler>) {
    forall h, g :: h in handlers && g in handlers && h != g ==> Apart(handlers[h], handlers[g])
  }

  predicate Apart(x: Handler, y: Handler) {
    !(IsCallback(x) && IsCallback(y)) && (IsPending(x) && IsPending(y) ==> x.turn != y.turn)
  }

  ghost predicate OnceInv(s: State) {
    && s.versions != [] && TraceOnce(s.trace, s.turnSeq)
    && (forall i :: 0 <= i < |s.versions| ==> VersionOnce(s.trace, s.versions[i]))
    && (forall h :: h in s.handlers ==> HandlerOnce(s.trace, s.turnSeq, Latest(s).current, s.handlers[h]))
    && Separate(s.handlers)
    && (Latest(s).current.Some? ==> Completed(Latest(s).current.value) !in s.trace)
  }

  lemma LeaveKeepsOnce(s: State, h: nat)
    requires OnceInv(s)
    ensures OnceInv(Leave(s, h))
  {
  }

  lemma MoveKeepsOnce(s: State, h: nat, x: Handler)
    requires OnceInv(s) && HandlerOnce(s.trace, s.turnSeq, Latest(s).current, x)
    requires forall g :: g in s.handlers && g != h ==> Apart(x, s.handlers[g]) && Apart(s.handlers[g], x)
    ensures OnceInv(Move(s, h, x))
  {
  }

  /** Moving a handler on keeps it apart from the others when kind and turn stay. */
  lemma MoveOnKeepsOnce(s: State, h: nat, x: Handler)
    requires OnceInv(s) && h in s.handlers && HandlerOnce(s.trace, s.turnSeq, Latest(s).current, x)
    requires IsCallback(x) ==> IsCallback(s.handlers[h])
    requires IsPending(x) ==> IsPending(s.handlers[h]) && x.turn == s.handlers[h].turn
    ensures OnceInv(Move(s, h, x))
  {
    forall g | g in s.handlers && g != h ensures Apart(x, s.handlers[g]) && Apart(s.handlers[g], x) {
      assert Apart(s.handlers[h], s.handlers[g]) && Apart(s.handlers[g], s.handlers[h]);
    }
    MoveKeepsOnce(s, h, x);
  }

  predicate Neutral(e: Event) {
    !e.Patched? && !e.Completed?
  }

  lemma NeutralKeepsTrace(trace: seq<Event>, turnSeq: int, e: Event)
    requires TraceOnce(trace, turnSeq) && Neutral(e)
    ensures TraceOnce(trace + [e], turnSeq)
    ensures forall q :: Patched(q) in trace + [e] <==> Patched(q) in trace
    ensures forall q :: Completed(q) in trace + [e] <==> Completed(q) in trace
  {
  }

  lemma NeutralKeepsOnce(s: State, e: Event)
    requires OnceInv(s) && Neutral(e)
    ensures OnceInv(Emit(s, e))
  {
    NeutralKeepsTrace(s.trace, s.turnSeq, e);
  }

  lemma AllocateKeepsOnce(s: State, h: nat)
    requires OnceInv(s) && Enabled(s, Allocate(h)) && s.turnSeq < 0x7fff_ffff
    ensures OnceInv(Do(s, Allocate(h)))
  {
    var q := s.turnSeq + 1;
    assert Int32(q) == q;
    var s1 := s.(turnSeq := q);
    assert OnceInv(s1);
    MoveKeepsOnce(s1, h, HasTurn(q));
    NeutralKeepsOnce(Move(s1, h, HasTurn(q)), Allocated(q));
  }

  lemma PatchKeepsTrace(trace: seq<Event>, turnSeq: int, q: int)
    requires TraceOnce(trace, turnSeq) && q <= turnSeq
    ensures TraceOnce(trace + [Patched(q)], turnSeq)
    ensures forall p :: Patched(p) in trace + [Patched(q)] <==> Patched(p) in trace || p == q
    ensures forall p :: Completed(p) in trace + [Patched(q)] <==> Completed(p) in trace
  {
  }

  lemma PatchTurnKeepsOnce(s: State, h: nat)
    requires OnceInv(s) && Enabled(s, PatchTurn(h, true))
    ensures OnceInv(Do(s, PatchTurn(h, true)))
  {
    var x := s.handlers[h];
    var t := Do(s, PatchTurn(h, true));
    PatchKeepsTrace(s.trace, s.turnSeq, x.turn);
    assert Latest(t).current == Some(x.turn);
    forall g | g in t.handlers ensures HandlerOnce(t.trace, t.turnSeq, Latest(t).current, t.handlers[g]) {
      assert g != h && Apart(s.handlers[h], s.handlers[g]);
      assert HandlerOnce(s.trace, s.turnSeq, Latest(s).current, s.handlers[g]);
    }
  }

  lemma PatchClearKeepsOnce(s: State, h: nat)
    requires OnceInv(s) && Enabled(s, PatchClear(h, true))
    ensures OnceInv(Do(s, PatchClear(h, true)))
  {
    var x := s.handlers[h];
    var s1 := Store(Emit(s, Cleared), Latest(s).(current := None));
    NeutralKeepsOnce(s, Cleared);
    assert OnceInv(s1);
    MoveOnKeepsOnce(s1, h, Reporting(x.turn));
  }

  lemma CompleteKeepsTrace(trace: seq<Event>, turnSeq: int, q: int)
    requires TraceOnce(trace, turnSeq) && Patched(q) in trace && Completed(q) !in trace
    ensures TraceOnce(trace + [Completed(q)], turnSeq)
    ensures forall p :: Patched(p) in trace + [Completed(q)] <==> Patched(p) in trace
    ensures forall p :: Completed(p) in trace + [Completed(q)] <==> Completed(p) in trace || p == q
  {
    var t := trace + [Completed(q)];
    forall i, j | 0 <= i < j < |t| && t[i].Completed? && t[j].Completed? ensures t[i].turn != t[j].turn {
      if j == |trace| {
        assert t[i] == trace[i] && t[i] in trace && t[i] == Completed(t[i].turn);
      }
    }
  }

  lemma AuditCompleteKeepsOnce(s: State, h: nat)
    requires OnceInv(s) && Enabled(s, AuditComplete(h, true))
    ensures OnceInv(Do(s, AuditComplete(h, true)))
  {
    var q := s.handlers[h].turn;
    var t := Do(s, AuditComplete(h, true));
    CompleteKeepsTrace(s.trace, s.turnSeq, q);
    forall g | g in t.handlers ensures HandlerOnce(t.trace, t.turnSeq, Latest(t).current, t.handlers[g]) {
      assert g != h && Apart(s.handlers[h], s.handlers[g]);
      assert HandlerOnce(s.trace, s.turnSeq, Latest(s).current, s.handlers[g]);
    }
  }

  lemma PromptStepKeepsOnce(s: State, step: Step)
    requires OnceInv(s) && Enabled(s, step)
    requires step.ArrivePrompt? || step.Audit? || step.Forward? || step.Rebase?
    ensures OnceInv(Do(s, step))
  {
    var h := step.h;
    match step
    case ArrivePrompt(_, _) => MoveKeepsOnce(s, h, Admitted);
    case Audit(_, _) =>
      LeaveKeepsOnce(s, h);
      MoveOnKeepsOnce(s, h, Audited(s.handlers[h].turn));
      NeutralKeepsOnce(Move(s, h, Audited(s.handlers[h].turn)), Submitted(s.handlers[h].turn));
    case Forward(_, _) =>
      LeaveKeepsOnce(s, h);
      MoveOnKeepsOnce(s, h, Forwarded(s.handlers[h].turn));
      NeutralKeepsOnce(Move(s, h, Forwarded(s.handlers[h].turn)), Accepted(s.handlers[h].turn));
    case Rebase(_, seen) =>
      assert VersionOnce(s.trace, s.versions[seen]);
      MoveOnKeepsOnce(s, h, Rebased(s.handlers[h].turn, s.versions[seen]));
  }

  lemma ArriveCompleteKeepsOnce(s: State, h: nat)
    requires OnceInv(s) && Enabled(s, ArriveComplete(h)) && Allowed(s, ArriveComplete(h), Licence(false, false, false))
    ensures OnceInv(Do(s, ArriveComplete(h)))
  {
    MoveKeepsOnce(s, h, Polling);
  }

  lemma StepKeepsOnce(s: State, step: Step)
    requires OnceInv(s) && Enabled(s, step) && Allowed(s, step, Licence(false, false, false))
    ensures OnceInv(Do(s, step))
  {
    var h := step.h;
    match step
    case ArrivePrompt(_, _) => PromptStepKeepsOnce(s, step);
    case Allocate(_) => AllocateKeepsOnce(s, h);
    case Audit(_, _) => PromptStepKeepsOnce(s, step);
    case Forward(_, _) => PromptStepKeepsOnce(s, step);
    case Rebase(_, _) => PromptStepKeepsOnce(s, step);
    case PatchTurn(_, ok) => if ok { PatchTurnKeepsOnce(s, h); } else { LeaveKeepsOnce(s, h); }
    case ArriveComplete(_) => ArriveCompleteKeepsOnce(s, h);
    case Poll(_, seen) =>
      assert VersionOnce(s.trace, s.versions[seen]);
      if s.versions[seen].current.Some? {
        MoveOnKeepsOnce(s, h, Clearing(s.versions[seen].current.value));
      }
    case GiveUp(_) => LeaveKeepsOnce(s, h);
    case PatchClear(_, ok) => if ok { PatchClearKeepsOnce(s, h); } else { LeaveKeepsOnce(s, h); }
    case AuditComplete(_, ok) => if ok { AuditCompleteKeepsOnce(s, h); } else { LeaveKeepsOnce(s, h); }
  }

  lemma {:induction false} RunKeepsOnce(s: State, steps: seq<Step>)
    requires OnceInv(s) && ValidRun(s, steps) && AllAllowed(s, steps, Licence(false, false, false))
    ensures OnceInv(Run(s, steps))
    decreases |steps|
  {
    if steps != [] {
      StepKeepsOnce(s, steps[0]);
      RunKeepsOnce(Do(s, steps[0]), steps[1..]);
    }
  }

  /** In every run within the licence no turn is completed twice. */
  ghost predicate CompletesOnce(l: Licence) {
    forall steps :: ValidRun(INIT, steps) && AllAllowed(INIT, steps, l) ==> NoRepeat(Run(INIT, steps).trace)
  }

  // ------------------------------------------------------ and when one is completed twice

  /** A run within the licence. */
  predicate Goes(s: State, steps: seq<Step>, t: State, l: Licence) {
    ValidRun(s, steps) && AllAllowed(s, steps, l) && Run(s, steps) == t
  }

  lemma GoesOne(s: State, a: Step, l: Licence)
    requires Enabled(s, a) && Allowed(s, a, l)
    ensures Goes(s, [a], Do(s, a), l)
  {
    assert [a][1..] == [];
  }

  lemma {:induction false} GoesAppend(s: State, a: seq<Step>, t: State, b: seq<Step>, u: State, l: Licence)
    requires Goes(s, a, t, l) && Goes(t, b, u, l)
    ensures Goes(s, a + b, u, l)
    decreases |a|
  {
    if a == [] {
      assert a + b == b;
    } else {
      assert (a + b)[1..] == a[1..] + b;
      GoesAppend(Do(s, a[0]), a[1..], t, b, u, l);
    }
  }

  lemma GoesThree(s: State, a: Step, b: Step, c: Step, l: Licence)
    requires Enabled(s, a) && Enabled(Do(s, a), b) && Enabled(Do(Do(s, a), b), c)
    requires Allowed(s, a, l) && Allowed(Do(s, a), b, l) && Allowed(Do(Do(s, a), b), c, l)
    ensures Goes(s, [a, b, c], Do(Do(Do(s, a), b), c), l)
  {
    var s1 := Do(s, a);
    var s2 := Do(s1, b);
    GoesOne(s, a, l);
    GoesOne(s1, b, l);
    GoesOne(s2, c, l);
    GoesAppend(s1, [b], s2, [c], Do(s2, c), l);
    GoesAppend(s, [a], s1, [b] + [c], Do(s2, c), l);
    assert [a] + ([b] + [c]) == [a, b, c];
  }

  /** No handler is active and no turn is in flight. */
  predicate AtRest(s: State) {
    s.handlers == map[] && s.versions != [] && Latest(s).current == None
  }

  predicate MayAllocate(s: State, l: Licence) {
    l.wrap || s.turnSeq < 0x7fff_ffff
  }

  lemma SubmitGoes(s: State, l: Licence) returns (a: seq<Step>, t: State)
    requires AtRest(s) && MayAllocate(s, l)
    ensures var q := Int32(s.turnSeq + 1);
            && Goes(s, a, t, l) && t.versions == s.versions && t.handlers == map[0 := Audited(q)] && t.turnSeq == q
            && t.trace == s.trace + [Allocated(q), Submitted(q)]
  {
    var n := |s.versions| - 1;
    GoesThree(s, ArrivePrompt(0, n), Allocate(0), Audit(0, true), l);
    a := [ArrivePrompt(0, n), Allocate(0), Audit(0, true)];
    t := Run(s, a);
  }

  lemma PatchGoes(s: State, q: int, status: int, l: Licence) returns (a: seq<Step>, t: State)
    requires 200 <= status <= 299
    requires s.versions != [] && Latest(s).current == None && s.handlers == map[0 := Audited(q)]
    ensures && Goes(s, a, t, l) && t.handlers == map[] && t.turnSeq == s.turnSeq
            && |t.versions| == |s.versions| + 1 && Latest(t).current == Some(q)
            && t.trace == s.trace + [Accepted(q), Patched(q)]
    ensures Forward(0, status) in a
  {
    var n := |s.versions| - 1;
    GoesThree(s, Forward(0, status), Rebase(0, n), PatchTurn(0, true), l);
    a := [Forward(0, status), Rebase(0, n), PatchTurn(0, true)];
    t := Run(s, a);
  }

  /** A prompt from rest that the adapter answers with any 2xx: its turn is in the newest status. */
  lemma PromptGoes(s: State, status: int, l: Licence) returns (a: seq<Step>, t: State)
    requires AtRest(s) && MayAllocate(s, l) && 200 <= status <= 299
    ensures var q := Int32(s.turnSeq + 1);
            && Goes(s, a, t, l) && t.handlers == map[] && t.turnSeq == q
            && |t.versions| == |s.versions| + 1 && Latest(t).current == Some(q)
    ensures Forward(0, status) in a
  {
    var b, s1 := SubmitGoes(s, l);
    var c;
    c, t := PatchGoes(s1, Int32(s.turnSeq + 1), status, l);
    GoesAppend(s, b, s1, c, t, l);
    a := b + c;
  }

  /** A callback that reads version `seen` completes the turn it finds there. */
  lemma CallbackGoes(s: State, seen: nat, l: Licence) returns (a: seq<Step>, t: State)
    requires s.handlers == map[] && seen < |s.versions| && s.versions[seen].current.Some?
    requires l.stale || seen == |s.versions| - 1
    ensures && Goes(s, a, t, l) && AtRest(t) && t.turnSeq == s.turnSeq
            && |t.versions| == |s.versions| + 1
            && (forall i :: 0 <= i < |s.versions| ==> t.versions[i] == s.versions[i])
            && t.trace == s.trace + [Cleared, Completed(s.versions[seen].current.value)]
  {
    GoesOne(s, ArriveComplete(0), l);
    var s1 := Do(s, ArriveComplete(0));
    GoesThree(s1, Poll(0, seen), PatchClear(0, true), AuditComplete(0, true), l);
    a := [Poll(0, seen), PatchClear(0, true), AuditComplete(0, true)];
    t := Run(s1, a);
    GoesAppend(s, [ArriveComplete(0)], s1, a, t, l);
    a := [ArriveComplete(0)] + a;
  }

  lemma GoesTraceGrows(s: State, a: seq<Step>, t: State, l: Licence)
    requires Goes(s, a, t, l)
    ensures s.trace <= t.trace
  {
    TraceGrows(s, a);
  }

  lemma RepeatFound(early: seq<Event>, late: seq<Event>, q: int)
    requires early != [] && early[|early| - 1] == Completed(q) && early <= late && |early| < |late|
    requires late[|late| - 1] == Completed(q)
    ensures !NoRepeat(late)
  {
    assert late[|early| - 1] == Completed(q);
  }

  /** The first turn of a run, completed once. */
  lemma FirstTurnGoes(l: Licence) returns (a: seq<Step>, t: State)
    ensures Goes(INIT, a, t, l) && AtRest(t) && t.turnSeq == 1 && |t.versions| == 3 && t.versions[1].current == Some(1)
    ensures t.trace != [] && t.trace[|t.trace| - 1] == Completed(1)
  {
    var b, s1 := PromptGoes(INIT, 202, l);
    var c;
    c, t := CallbackGoes(s1, 1, l);
    GoesAppend(INIT, b, s1, c, t, l);
    a := b + c;
  }

  /** A later callback that reads an old status completes the first turn again. */
  lemma StaleReadCompletesTwice(l: Licence) returns (a: seq<Step>, t: State)
    requires l.stale
    ensures Goes(INIT, a, t, l) && !NoRepeat(t.trace)
  {
    var b, s1 := FirstTurnGoes(l);
    var c;
    c, t := CallbackGoes(s1, 1, l);
    GoesAppend(INIT, b, s1, c, t, l);
    RepeatFound(s1.trace, t.trace, 1);
    a := b + c;
  }

  /** Prompts whose audit fails use up turn numbers. */
  lemma {:induction false} SkipGoes(s: State, n: nat, l: Licence) returns (a: seq<Step>, t: State)
    requires AtRest(s) && l.wrap && s.turnSeq == Int32(s.turnSeq)
    ensures Goes(s, a, t, l) && AtRest(t) && t.turnSeq == Int32(s.turnSeq + n)
    decreases n
  {
    a, t := [], s;
    if n > 0 {
      var b, s1 := SkipGoes(s, n - 1, l);
      var v := |s1.versions| - 1;
      GoesThree(s1, ArrivePrompt(0, v), Allocate(0), Audit(0, false), l);
      var c := [ArrivePrompt(0, v), Allocate(0), Audit(0, false)];
      t := Run(s1, c);
      GoesAppend(s, b, s1, c, t, l);
      Int32Step(s.turnSeq + n - 1);
      a := b + c;
    }
  }

  /** After 2^32 - 1 more allocations the first turn number comes again, and is completed again. */
  lemma WrapCompletesTwice(l: Licence) returns (a: seq<Step>, t: State)
    requires l.wrap
    ensures Goes(INIT, a, t, l) && !NoRepeat(t.trace)
  {
    var b, s1 := FirstTurnGoes(l);
    var c, s2 := SkipGoes(s1, 0xffff_ffff, l);
    var d, s3 := PromptGoes(s2, 202, l);
    assert s2.turnSeq == 0 && Latest(s3).current == Some(1);
    var e;
    e, t := CallbackGoes(s3, |s3.versions| - 1, l);
    GoesAppend(INIT, b, s1, c, s2, l);
    GoesAppend(INIT, b + c, s2, d, s3, l);
    GoesAppend(INIT, b + c + d, s3, e, t, l);
    a := b + c + d + e;
    GoesTraceGrows(s1, c, s2, l);
    GoesTraceGrows(s2, d, s3, l);
    RepeatFound(s1.trace, t.trace, 1);
  }

  /** Two callbacks that overlap while a turn is in flight both report it. */
  lemma OverlappingCallbacksReportTwice(s: State, q: int, l: Licence) returns (a: seq<Step>, t: State)
    requires s.handlers == map[] && s.versions != [] && Latest(s).current == Some(q) && l.overlap
    ensures Goes(s, a, t, l) && t.trace == s.trace + [Cleared, Cleared, Completed(q), Completed(q)]
  {
    var n := |s.versions| - 1;
    GoesThree(s, ArriveComplete(0), ArriveComplete(1), Poll(0, n), l);
    var b := [ArriveComplete(0), ArriveComplete(1), Poll(0, n)];
    var s1 := Run(s, b);
    GoesThree(s1, Poll(1, n), PatchClear(0, true), PatchClear(1, true), l);
    var c := [Poll(1, n), PatchClear(0, true), PatchClear(1, true)];
    var s2 := Run(s1, c);
    GoesOne(s2, AuditComplete(0, true), l);
    var s3 := Do(s2, AuditComplete(0, true));
    GoesOne(s3, AuditComplete(1, true), l);
    t := Do(s3, AuditComplete(1, true));
    GoesAppend(s, b, s1, c, s2, l);
    GoesAppend(s, b + c, s2, [AuditComplete(0, true)], s3, l);
    GoesAppend(s, b + c + [AuditComplete(0, true)], s3, [AuditComplete(1, true)], t, l);
    a := b + c + [AuditComplete(0, true)] + [AuditComplete(1, true)];
  }

  lemma OverlapCompletesTwice(l: Licence) returns (a: seq<Step>, t: State)
    requires l.overlap
    ensures Goes(INIT, a, t, l) && !NoRepeat(t.trace)
  {
    var b, s1 := PromptGoes(INIT, 202, l);
    var c;
    c, t := OverlappingCallbacksReportTwice(s1, 1, l);
    GoesAppend(INIT, b, s1, c, t, l);
    a := b + c;
    assert t.trace[|s1.trace| + 2] == Completed(1) == t.trace[|s1.trace| + 3];
  }

  /**
   At most one completion per turn, in every interleaving, if and only if callbacks do not
   overlap, they read the newest status, and the turn counter does not wrap.
   */
  lemma CompletesOnceIff(l: Licence)
    ensures CompletesOnce(l) <==> l == Licence(false, false, false)
  {
    if l.overlap {
      var a, t := OverlapCompletesTwice(l);
    } else if l.stale {
      var a, t := StaleReadCompletesTwice(l);
    } else if l.wrap {
      var a, t := WrapCompletesTwice(l);
    } else {
      forall steps | ValidRun(INIT, steps) && AllAllowed(INIT, steps, l) ensures NoRepeat(Run(INIT, steps).trace) {
        RunKeepsOnce(INIT, steps);
      }
    }
  }

  // ------------------------------------------------------ the balance of prompts and clears

  /** The turn-complete patches that landed. */
  function Clears(trace: seq<Event>): nat {
    if trace == [] then 0
    else Clears(trace[..|trace| - 1]) + if trace[|trace| - 1].Cleared? then 1 else 0
  }

  /** A handler arrives only when no other is active, reads the newest status, and its patches succeed. */
  predicate SerialStep(s: State, step: Step) {
    match step
    case ArrivePrompt(_, seen) => s.handlers == map[] && seen == |s.versions| - 1
    case ArriveComplete(_) => s.handlers == map[]
    case Rebase(_, seen) => seen == |s.versions| - 1
    case Poll(_, seen) => seen == |s.versions| - 1
    case PatchTurn(_, ok) => ok
    case PatchClear(_, ok) => ok
    case _ => true
  }

  predicate Serial(s: State, steps: seq<Step>)
    requires ValidRun(s, steps)
    decreases |steps|
  {
    steps == [] || (SerialStep(s, steps[0]) && Serial(Do(s, steps[0]), steps[1..]))
  }

  /** Every prompt counted is cleared or in flight. */
  predicate Balanced(trace: seq<Event>, v: Status) {
    v.promptCount == Int32(Clears(trace) + if v.current.Some? then 1 else 0)
  }

  /** What the one active handler knows about the newest status. */
  predicate Knows(x: Handler, v: Status) {
    match x
    case Polling => true
    case Clearing(_) => v.current.Some?
    case Rebased(_, base) => base == v && v.current == None
    case _ => v.current == None
  }

  /** At most one handler is active, and it knows the newest status. */
  ghost predicate Alone(s: State) {
    && s.versions != []
    && (forall h, g :: h in s.handlers && g in s.handlers ==> h == g)
    && (forall h :: h in s.handlers ==> Knows(s.handlers[h], Latest(s)))
  }

  ghost predicate SerialInv(s: State) {
    Alone(s) && Balanced(s.trace, Latest(s))
  }

  lemma ClearsAppend(trace: seq<Event>, e: Event)
    ensures Clears(trace + [e]) == Clears(trace) + if e.Cleared? then 1 else 0
  {
    assert (trace + [e])[..|trace|] == trace;
  }

  /** A prompt patched while no turn is in flight. */
  lemma PatchBalances(trace: seq<Event>, v: Status, q: int)
    requires Balanced(trace, v) && v.current == None
    ensures Balanced(trace + [Patched(q)], Status(Some(q), Int32(v.promptCount + 1)))
  {
    ClearsAppend(trace, Patched(q));
    Int32Step(Clears(trace));
  }

  lemma ClearBalances(trace: seq<Event>, v: Status)
    requires Balanced(trace, v) && v.current.Some?
    ensures Balanced(trace + [Cleared], v.(current := None))
  {
    ClearsAppend(trace, Cleared);
  }

  lemma OtherBalances(trace: seq<Event>, v: Status, e: Event)
    requires Balanced(trace, v) && !e.Cleared?
    ensures Balanced(trace + [e], v)
  {
    ClearsAppend(trace, e);
  }

  lemma OtherStepKeepsBalance(s: State, step: Step)
    requires Enabled(s, step) && s.versions != [] && Balanced(s.trace, Latest(s))
             && !step.PatchTurn? && !step.PatchClear?
    ensures Balanced(Do(s, step).trace, Latest(Do(s, step)))
  {
    var t := Do(s, step);
    assert t.versions == s.versions;
    if t.trace != s.trace {
      var e := t.trace[|s.trace|];
      assert t.trace == s.trace + [e];
      OtherBalances(s.trace, Latest(s), e);
    }
  }

  lemma SerialStepKeepsAlone(s: State, step: Step)
    requires Alone(s) && Enabled(s, step) && SerialStep(s, step)
    ensures Alone(Do(s, step))
  {
  }

  lemma SerialStepKeepsInv(s: State, step: Step)
    requires SerialInv(s) && Enabled(s, step) && SerialStep(s, step)
    ensures SerialInv(Do(s, step))
  {
    SerialStepKeepsAlone(s, step);
    if step.PatchTurn? {
      assert Knows(s.handlers[step.h], Latest(s));
      PatchBalances(s.trace, Latest(s), s.handlers[step.h].turn);
    } else if step.PatchClear? {
      assert Knows(s.handlers[step.h], Latest(s));
      ClearBalances(s.trace, Latest(s));
    } else {
      OtherStepKeepsBalance(s, step);
    }
  }

  lemma {:induction false} SerialRunKeepsInv(s: State, steps: seq<Step>)
    requires SerialInv(s) && ValidRun(s, steps) && Serial(s, steps)
    ensures SerialInv(Run(s, steps))
    decreases |steps|
  {
    if steps != [] {
      SerialStepKeepsInv(s, steps[0]);
      SerialRunKeepsInv(Do(s, steps[0]), steps[1..]);
    }
  }

  /**
   When handlers never overlap, status reads are current and writes succeed, promptCount minus the
   number of clears is 1 exactly when a turn is in flight, else 0, in every state of the run.
   */
  lemma PromptsBalanceClears(steps: seq<Step>)
    requires ValidRun(INIT, steps) && Serial(INIT, steps)
    ensures var s := Run(INIT, steps);
            s.versions != []
            && Latest(s).promptCount == Int32(Clears(s.trace) + if Latest(s).current.Some? then 1 else 0)
  {
    SerialRunKeepsInv(INIT, steps);
  }
}
