/**
 The workspace lock: activeRunRef on a Workspace object behind an API server with optimistic
 concurrency (bindWorkspace and clearWorkspaceBinding in
 internal/controller/harnessrun_controller.go, Reconcile and reconcileDelete in
 internal/controller/workspace_controller.go).

 The server keeps every version it ever stored; the resourceVersion of a version is its index.
 A cached read may return any stored version, however old. A write carries the version it was
 computed from and is accepted only if that version is still the newest. Status writes take the
 status from the caller and the metadata from the server; metadata writes do the opposite.
 */
module WorkspaceLock {
  import opened Wrappers

  datatype Phase = Unset | Seeding | Active | Failed | Terminating

  datatype Workspace = Workspace(
    activeRunRef: string, totalRuns: int, lastCountedRun: string, phase: Phase,   // status
    finalizer: bool, deleting: bool)                                              // metadata

  /** What kind of write produced a version. */
  datatype Writer = Created | Bound(run: string) | Cleared(run: string) | StatusWrite | MetadataWrite | Released

  datatype Version = Version(ws: Workspace, writer: Writer)

  type Log = seq<Version>

  function Current(log: Log): Workspace
    requires log != []
  {
    log[|log| - 1].ws
  }

  /** The object is gone once it is being deleted and holds no finalizer. */
  predicate Gone(log: Log)
    requires log != []
  {
    Current(log).deleting && !Current(log).finalizer
  }

  predicate Accepts(log: Log, rv: nat)
    requires log != []
  {
    rv == |log| - 1 && !Gone(log)
  }

  /** Status().Update with the status of `copy`. */
  function StatusUpdate(log: Log, rv: nat, copy: Workspace, writer: Writer): Log
    requires log != []
  {
    if Accepts(log, rv)
    then log + [Version(copy.(finalizer := Current(log).finalizer, deleting := Current(log).deleting), writer)]
    else log
  }

  /** Update with the finalizer list of `finalizer`. */
  function FinalizerUpdate(log: Log, rv: nat, finalizer: bool, writer: Writer): Log
    requires log != []
  {
    if Accepts(log, rv) then log + [Version(Current(log).(finalizer := finalizer), writer)] else log
  }

  /** The in-memory edits of bindWorkspace before its Status().Update. */
  function BindEdit(ws: Workspace, run: string): Workspace {
    var counted := if ws.lastCountedRun != run
                   then ws.(totalRuns := Int32(ws.totalRuns + 1), lastCountedRun := run) else ws;
    counted.(activeRunRef := run)
  }

  // ------------------------------------------------------ the sequential operations

  /** One Workspace object as the API server stores it, with the two lock operations. */
  class ApiServer {
    var log: Log

    ghost predicate Valid()
      reads this
    {
      History(log)
    }

    constructor ()
      ensures Valid() && log == [Version(Workspace("", 0, "", Unset, false, false), Created)]
    {
      log := [Version(Workspace("", 0, "", Unset, false, false), Created)];
    }

    /** bindWorkspace on the (possibly stale) version `rv`. */
    method BindWorkspace(rv: nat, run: string) returns (bound: bool)
      requires Valid() && rv < |log| && run != ""
      modifies this
      ensures Valid()
      ensures log == (if old(log[rv].ws.activeRunRef) == ""
                      then StatusUpdate(old(log), rv, BindEdit(old(log[rv].ws), run), Bound(run)) else old(log))
      ensures bound <==> old(log[rv].ws.activeRunRef) == run || |log| > |old(log)|
      ensures bound && rv == |old(log)| - 1 ==> Current(log).activeRunRef == run
      ensures old(Current(log)).activeRunRef !in {"", run} ==> log == old(log) && (bound ==> rv < |log| - 1)
      ensures bound ==> Current(log).activeRunRef == run || ClearedSince(log, rv, run)
    {
      var ws := log[rv].ws;
      if ws.activeRunRef == run {
        HeldUnlessCleared(log, rv);
        return true;
      }
      if ws.activeRunRef != "" {
        return false;
      }
      ws := ws.(activeRunRef := run);
      if ws.lastCountedRun != run {
        ws := ws.(totalRuns := Int32(ws.totalRuns + 1), lastCountedRun := run);
      }
      var before := |log|;
      log := StatusUpdate(log, rv, ws, Bound(run));
      bound := |log| > before;
    }

    /** clearWorkspaceBinding: `seen` is the caller's copy, `refetched` the version its Get returns. */
    method ClearWorkspaceBinding(seen: nat, refetched: nat, run: string)
      requires Valid() && seen < |log| && refetched < |log| && run != ""
      modifies this
      ensures Valid()
      ensures log == (if old(log[seen].ws.activeRunRef) == run && old(log[refetched].ws.activeRunRef) == run
                      then StatusUpdate(old(log), refetched, old(log[refetched].ws).(activeRunRef := ""), Cleared(run))
                      else old(log))
      ensures old(Current(log)).activeRunRef != run ==> log == old(log)
    {
      if log[seen].ws.activeRunRef != run {
        return;
      }
      var ws := log[refetched].ws;
      if ws.activeRunRef != run {
        return;
      }
      log := StatusUpdate(log, refetched, ws.(activeRunRef := ""), Cleared(run));
    }
  }

  // ------------------------------------------------------ concurrent clients

  /** A reconcile between its last read and its next write, with its resourceVersion and copy. */
  datatype Client =
    | Binding(run: string, rv: nat, copy: Workspace)
    | Clearing(run: string, rv: nat, copy: Workspace)
    | Reconciling(rv: nat, copy: Workspace)
    | MarkingTerminating(rv: nat, copy: Workspace)
    | Releasing(rv: nat)

  datatype System = System(log: Log, clients: map<nat, Client>)

  datatype Step =
    | ReadForBind(c: nat, run: string, rv: nat)
    | ReadForClear(c: nat, run: string, seen: nat, refetched: nat)
    | ReadForReconcile(c: nat, rv: nat, phase: Phase)
    | ReadForDelete(c: nat, rv: nat)
    | Write(c: nat)
    | EditMetadata(deleting: bool, addFinalizer: bool)

  const INIT := System([Version(Workspace("", 0, "", Unset, false, false), Created)], map[])

  predicate Enabled(s: System, step: Step) {
    && s.log != []
    && match step
       case ReadForBind(c, run, rv) => c !in s.clients && run != "" && rv < |s.log|
       case ReadForClear(c, run, seen, refetched) =>
         c !in s.clients && run != "" && seen < |s.log| && refetched < |s.log|
       case ReadForReconcile(c, rv, _) => c !in s.clients && rv < |s.log| && !s.log[rv].ws.deleting
       case ReadForDelete(c, rv) => c !in s.clients && rv < |s.log| && s.log[rv].ws.deleting
       case Write(c) => c in s.clients
       case EditMetadata(_, _) => !Gone(s.log)
  }

  function Done(s: System, c: nat): System {
    s.(clients := s.clients - {c})
  }

  function Do(s: System, step: Step): System
    requires Enabled(s, step)
  {
    match step
    case ReadForBind(c, run, rv) =>
      var ws := s.log[rv].ws;
      if ws.phase.Active? && ws.activeRunRef == ""
      then s.(clients := s.clients[c := Binding(run, rv, BindEdit(ws, run))])
      else s
    case ReadForClear(c, run, seen, refetched) =>
      var ws := s.log[refetched].ws;
      if s.log[seen].ws.activeRunRef == run && ws.activeRunRef == run
      then s.(clients := s.clients[c := Clearing(run, refetched, ws.(activeRunRef := ""))]) else s
    case ReadForReconcile(c, rv, phase) =>
      s.(clients := s.clients[c := Reconciling(rv, s.log[rv].ws.(phase := phase))])
    case ReadForDelete(c, rv) =>
      var ws := s.log[rv].ws;
      if !ws.finalizer || ws.activeRunRef != "" then s
      else if ws.phase.Terminating? then s.(clients := s.clients[c := Releasing(rv)])
      else s.(clients := s.clients[c := MarkingTerminating(rv, ws.(phase := Terminating))])
    case Write(c) =>
      (match s.clients[c]
       case Binding(run, rv, copy) => Done(s, c).(log := StatusUpdate(s.log, rv, copy, Bound(run)))
       case Clearing(run, rv, copy) => Done(s, c).(log := StatusUpdate(s.log, rv, copy, Cleared(run)))
       case Reconciling(rv, copy) => Done(s, c).(log := StatusUpdate(s.log, rv, copy, StatusWrite))
       case MarkingTerminating(rv, copy) =>
         // A conflict is ignored and leaves the old resourceVersion in hand.
         var log' := StatusUpdate(s.log, rv, copy, StatusWrite);
         System(log', s.clients[c := Releasing(if |log'| > |s.log| then |s.log| else rv)])
       case Releasing(rv) => Done(s, c).(log := FinalizerUpdate(s.log, rv, false, Released)))
    case EditMetadata(deleting, addFinalizer) =>
      var ws := Current(s.log);
      s.(log := s.log + [Version(ws.(deleting := ws.deleting || deleting, finalizer := ws.finalizer || addFinalizer),
                                 MetadataWrite)])
  }

  predicate ValidRun(s: System, steps: seq<Step>)
    decreases |steps|
  {
    steps == [] || (Enabled(s, steps[0]) && ValidRun(Do(s, steps[0]), steps[1..]))
  }

  function Run(s: System, steps: seq<Step>): System
    requires ValidRun(s, steps)
    decreases |steps|
  {
    if steps == [] then s else Run(Do(s, steps[0]), steps[1..])
  }

  // ------------------------------------------------------ invariant

  /** How one stored version may follow another. */
  predicate Follows(v: Workspace, w: Version) {
    && (match w.writer
        case Bound(r) => r != "" && v.activeRunRef == "" && w.ws.activeRunRef == r
                         && w.ws.lastCountedRun == r
                         && w.ws.totalRuns == (if v.lastCountedRun == r then v.totalRuns else Int32(v.totalRuns + 1))
        case Cleared(r) => v.activeRunRef == r && w.ws.activeRunRef == "" && SameCount(v, w.ws)
        case Released => v.activeRunRef == "" == w.ws.activeRunRef && SameCount(v, w.ws)
        case Created => false
        case _ => v.activeRunRef == w.ws.activeRunRef && SameCount(v, w.ws))
    && (v.finalizer && !w.ws.finalizer ==> w.writer.Released?)
  }

  predicate SameCount(v: Workspace, w: Workspace) {
    v.totalRuns == w.totalRuns && v.lastCountedRun == w.lastCountedRun
  }

  ghost predicate History(log: Log) {
    && log != []
    && log[0] == Version(Workspace("", 0, "", Unset, false, false), Created)
    && forall i :: 0 < i < |log| ==> Follows(log[i - 1].ws, log[i])
  }

  predicate ClientOk(log: Log, c: Client) {
    && c.rv < |log|
    && var ws := log[c.rv].ws;
       match c
       case Binding(run, _, copy) => run != "" && ws.activeRunRef == "" && copy == BindEdit(ws, run)
       case Clearing(run, _, copy) => ws.activeRunRef == run && copy == ws.(activeRunRef := "")
       case Reconciling(_, copy) => copy.activeRunRef == ws.activeRunRef && SameCount(ws, copy)
       case MarkingTerminating(_, copy) => ws.activeRunRef == "" == copy.activeRunRef && SameCount(ws, copy)
       case Releasing(_) => ws.activeRunRef == ""
  }

  ghost predicate Inv(s: System) {
    History(s.log) && forall c :: c in s.clients ==> ClientOk(s.log, s.clients[c])
  }

  /** The log grows by at most one version, and that version may follow the newest one. */
  predicate Grows(log: Log, log': Log)
    requires log != []
  {
    log' == log || (|log'| == |log| + 1 && log'[..|log|] == log && Follows(Current(log), log'[|log|]))
  }

  lemma WriteGrows(s: System, c: nat)
    requires s.log != [] && c in s.clients && ClientOk(s.log, s.clients[c])
    ensures Grows(s.log, Do(s, Write(c)).log)
    ensures forall d :: d in Do(s, Write(c)).clients ==> d in s.clients
    ensures forall d :: d in Do(s, Write(c)).clients && d != c ==> Do(s, Write(c)).clients[d] == s.clients[d]
    ensures c in Do(s, Write(c)).clients ==> ClientOk(Do(s, Write(c)).log, Do(s, Write(c)).clients[c])
  {
  }

  lemma GrowthKeepsClients(log: Log, log': Log, c: Client)
    requires log != [] && Grows(log, log') && ClientOk(log, c)
    ensures ClientOk(log', c)
  {
    assert log'[c.rv] == log'[..|log|][c.rv];
  }

  lemma GrowthKeepsHistory(log: Log, log': Log)
    requires History(log) && Grows(log, log')
    ensures History(log')
  {
    if log' != log {
      assert forall i :: 0 <= i < |log| ==> log'[i] == log'[..|log|][i];
    }
  }

  lemma ReadIsOk(s: System, step: Step)
    requires Enabled(s, step) && !step.Write? && !step.EditMetadata?
    ensures var t := Do(s, step);
            t.log == s.log && (t == s || (t.clients == s.clients[step.c := t.clients[step.c]]
                                          && ClientOk(t.log, t.clients[step.c])))
  {
  }

  lemma StepKeepsInv(s: System, step: Step)
    requires Inv(s) && Enabled(s, step)
    ensures Inv(Do(s, step))
  {
    var t := Do(s, step);
    if step.Write? {
      WriteGrows(s, step.c);
      GrowthKeepsHistory(s.log, t.log);
      forall c | c in t.clients && c != step.c ensures ClientOk(t.log, t.clients[c]) {
        GrowthKeepsClients(s.log, t.log, s.clients[c]);
      }
    } else if step.EditMetadata? {
      assert t.log[..|s.log|] == s.log;
      GrowthKeepsHistory(s.log, t.log);
      forall c | c in t.clients ensures ClientOk(t.log, t.clients[c]) {
        GrowthKeepsClients(s.log, t.log, s.clients[c]);
      }
    } else {
      ReadIsOk(s, step);
    }
  }

  lemma {:induction false} RunKeepsInv(s: System, steps: seq<Step>)
    requires Inv(s) && ValidRun(s, steps)
    ensures Inv(Run(s, steps))
    decreases |steps|
  {
    if steps != [] {
      StepKeepsInv(s, steps[0]);
      RunKeepsInv(Do(s, steps[0]), steps[1..]);
    }
  }

  // ------------------------------------------------------ main results

  /**
   In every interleaving of any number of reconciles with arbitrarily stale reads, activeRunRef
   on the server moves only from "" to r by r's own bind or from r to "" by r's own clear, and a
   version without the finalizer follows one with it only while activeRunRef is "".
   */
  lemma LockMovesOnlyByItsRun(steps: seq<Step>, i: nat)
    requires ValidRun(INIT, steps)
    requires 0 < i < |Run(INIT, steps).log|
    ensures
      var log := Run(INIT, steps).log;
      var v, w := log[i - 1].ws, log[i].ws;
      && (v.activeRunRef != w.activeRunRef ==>
            (v.activeRunRef == "" && log[i].writer == Bound(w.activeRunRef))
            || (w.activeRunRef == "" && log[i].writer == Cleared(v.activeRunRef)))
      && (v.finalizer && !w.finalizer ==> v.activeRunRef == "" && w.activeRunRef == "")
  {
    RunKeepsInv(INIT, steps);
  }

  /** A run that holds the lock at version i but not at j has cleared it in between. */
  lemma {:induction false} FindClear(log: Log, i: nat, j: nat) returns (k: nat)
    requires History(log) && i <= j < |log|
    requires log[i].ws.activeRunRef != "" && log[i].ws.activeRunRef != log[j].ws.activeRunRef
    ensures i < k <= j && log[k].writer == Cleared(log[i].ws.activeRunRef)
    decreases j
  {
    assert Follows(log[j - 1].ws, log[j]);
    if log[j - 1].ws.activeRunRef == log[i].ws.activeRunRef {
      k := j;
    } else {
      k := FindClear(log, i, j - 1);
    }
  }

  /** Run `run` cleared the lock in a version after `rv`. */
  ghost predicate ClearedSince(log: Log, rv: nat, run: string) {
    exists k :: rv < k < |log| && log[k].writer == Cleared(run)
  }

  /** The holder seen in a stale version still holds the lock unless it has cleared it since. */
  lemma HeldUnlessCleared(log: Log, rv: nat)
    requires History(log) && rv < |log| && log[rv].ws.activeRunRef != ""
    ensures Current(log).activeRunRef == log[rv].ws.activeRunRef || ClearedSince(log, rv, log[rv].ws.activeRunRef)
  {
    if Current(log).activeRunRef != log[rv].ws.activeRunRef {
      var k := FindClear(log, rv, |log| - 1);
    }
  }

  /** Mutual exclusion: between any two binds lies a clear by the first binder. */
  lemma BindsAreSeparatedByClear(steps: seq<Step>, i: nat, j: nat) returns (k: nat)
    requires ValidRun(INIT, steps)
    requires i < j < |Run(INIT, steps).log|
    requires Run(INIT, steps).log[i].writer.Bound? && Run(INIT, steps).log[j].writer.Bound?
    ensures
      var log := Run(INIT, steps).log;
      i < k < j && log[k].writer == Cleared(log[i].writer.run)
  {
    RunKeepsInv(INIT, steps);
    var log := Run(INIT, steps).log;
    assert Follows(log[i - 1].ws, log[i]) && Follows(log[j - 1].ws, log[j]);
    k := FindClear(log, i, j - 1);
  }

  /** The runs that bound, in order. */
  function Binds(log: Log): seq<string> {
    if log == [] then []
    else
      var rest := Binds(log[..|log| - 1]);
      match log[|log| - 1].writer
      case Bound(r) => rest + [r]
      case _ => rest
  }

  /** A sequence with adjacent repeats collapsed. */
  function Collapse(runs: seq<string>): (c: seq<string>)
    ensures runs != [] ==> c != [] && c[|c| - 1] == runs[|runs| - 1]
    ensures runs == [] ==> c == []
  {
    if |runs| < 2 then runs
    else
      var rest := Collapse(runs[..|runs| - 1]);
      if runs[|runs| - 1] == runs[|runs| - 2] then rest else rest + [runs[|runs| - 1]]
  }

  lemma Int32Increment(x: int)
    ensures Int32(Int32(x) + 1) == if Int32(x) == 0x7fff_ffff then -0x8000_0000 else Int32(x) + 1
  {
  }

  lemma CollapseAppend(runs: seq<string>, r: string)
    ensures Collapse(runs + [r]) == if runs != [] && runs[|runs| - 1] == r then Collapse(runs) else Collapse(runs) + [r]
  {
    assert (runs + [r])[..|runs|] == runs;
  }

  /** The status counters agree with the bind history `runs`. */
  predicate Counts(ws: Workspace, runs: seq<string>) {
    && "" !in runs
    && ws.totalRuns == Int32(|Collapse(runs)|)
    && ws.lastCountedRun == (if runs == [] then "" else runs[|runs| - 1])
  }

  lemma BindKeepsCounts(v: Workspace, w: Version, runs: seq<string>)
    requires Counts(v, runs) && Follows(v, w) && w.writer.Bound?
    ensures Counts(w.ws, runs + [w.writer.run])
  {
    var r := w.writer.run;
    CollapseAppend(runs, r);
    Int32Step(|Collapse(runs)|);
    assert "" !in runs + [r];
  }

  lemma {:induction false} CountsOfHistory(log: Log)
    requires History(log)
    ensures Counts(Current(log), Binds(log))
    decreases |log|
  {
    var n := |log| - 1;
    var init := log[..n];
    if n > 0 {
      PrefixIsHistory(log, n);
      CountsOfHistory(init);
      assert Follows(log[n - 1].ws, log[n]);
      if log[n].writer.Bound? {
        BindKeepsCounts(log[n - 1].ws, log[n], Binds(init));
      }
    } else {
      assert init == [];
    }
  }

  /**
   totalRuns is the int32 value of the number of bind runs with adjacent repeats collapsed, and
   lastCountedRun is the last of them, in every interleaving.
   */
  lemma TotalRunsCountsCollapsedBinds(steps: seq<Step>)
    requires ValidRun(INIT, steps)
    ensures
      var log := Run(INIT, steps).log;
      var h := Collapse(Binds(log));
      && log != []
      && Current(log).totalRuns == Int32(|h|)
      && Current(log).lastCountedRun == (if h == [] then "" else h[|h| - 1])
  {
    RunKeepsInv(INIT, steps);
    CountsOfHistory(Run(INIT, steps).log);
  }

  /** totalRuns decreases exactly when a newly counted run wraps the int32 counter. */
  lemma TotalRunsDecreasesOnlyOnWrap(steps: seq<Step>, i: nat)
    requires ValidRun(INIT, steps)
    requires 0 < i < |Run(INIT, steps).log|
    ensures var log := Run(INIT, steps).log;
            log[i].ws.totalRuns < log[i - 1].ws.totalRuns <==>
            log[i - 1].ws.totalRuns == 0x7fff_ffff && log[i].writer.Bound?
            && log[i].writer.run != log[i - 1].ws.lastCountedRun
  {
    RunKeepsInv(INIT, steps);
    var log := Run(INIT, steps).log;
    PrefixIsHistory(log, i);
    CountsOfHistory(log[..i]);
    Int32Increment(|Collapse(Binds(log[..i]))|);
    assert Follows(log[i - 1].ws, log[i]);
  }

  // ------------------------------------------------------ deletion, and the phase of a bind

  /** A delete reconcile on the newest version of a free, deleting workspace removes it. */
  lemma DeleteReleases(s: System, c: nat) returns (steps: seq<Step>)
    requires Inv(s) && c !in s.clients
    requires Current(s.log).deleting && Current(s.log).finalizer && Current(s.log).activeRunRef == ""
    ensures ValidRun(s, steps) && Run(s, steps).log != [] && Gone(Run(s, steps).log)
    ensures |steps| == if Current(s.log).phase.Terminating? then 2 else 3
  {
    var read := ReadForDelete(c, |s.log| - 1);
    var s1 := Do(s, read);
    if Current(s.log).phase.Terminating? {
      TwoSteps(s, read, Write(c));
      steps := [read, Write(c)];
    } else {
      var s2 := Do(s1, Write(c));
      TwoSteps(s1, Write(c), Write(c));
      steps := [read] + [Write(c), Write(c)];
      assert steps[1..] == [Write(c), Write(c)];
      assert Run(s, steps) == Do(s2, Write(c));
    }
  }

  /** A delete reconcile that sees the lock held, on whatever version, leaves everything alone. */
  lemma HeldWorkspaceIsKept(s: System, c: nat, rv: nat)
    requires Enabled(s, ReadForDelete(c, rv)) && s.log[rv].ws.activeRunRef != ""
    ensures Do(s, ReadForDelete(c, rv)) == s
  {
  }

  predicate BoundWhileActive(log: Log) {
    forall i :: 0 < i < |log| && log[i].writer.Bound? ==> log[i - 1].ws.phase.Active?
  }

  predicate ReadActive(log: Log, c: Client) {
    c.Binding? ==> c.rv < |log| && log[c.rv].ws.phase.Active?
  }

  /** Pending binds were read from, and bound versions follow, an Active workspace. */
  ghost predicate ActiveBinds(s: System) {
    BoundWhileActive(s.log) && forall c :: c in s.clients ==> ReadActive(s.log, s.clients[c])
  }

  lemma LogExtends(s: System, step: Step)
    requires Enabled(s, step)
    ensures s.log <= Do(s, step).log && |Do(s, step).log| <= |s.log| + 1
  {
  }

  /** The new version of a step is a bind only when a pending bind on the newest version is written. */
  lemma NewVersionIsActive(s: System, step: Step)
    requires ActiveBinds(s) && Enabled(s, step)
    ensures var log := Do(s, step).log;
            |log| > |s.log| && log[|s.log|].writer.Bound? ==> s.log[|s.log| - 1].ws.phase.Active?
  {
    if step.Write? {
      assert ReadActive(s.log, s.clients[step.c]);
    }
  }

  lemma ClientsStayActive(s: System, step: Step, c: nat)
    requires ActiveBinds(s) && Enabled(s, step) && c in Do(s, step).clients
    ensures ReadActive(Do(s, step).log, Do(s, step).clients[c])
  {
    LogExtends(s, step);
    if c in s.clients {
      assert ReadActive(s.log, s.clients[c]);
    }
  }

  lemma StepKeepsActiveBinds(s: System, step: Step)
    requires ActiveBinds(s) && Enabled(s, step)
    ensures ActiveBinds(Do(s, step))
  {
    var t := Do(s, step);
    LogExtends(s, step);
    NewVersionIsActive(s, step);
    forall i | 0 < i < |t.log| && t.log[i].writer.Bound? ensures t.log[i - 1].ws.phase.Active? {
      assert t.log[i - 1] == s.log[i - 1] && (i < |s.log| ==> t.log[i] == s.log[i]);
    }
    forall c | c in t.clients ensures ReadActive(t.log, t.clients[c]) {
      ClientsStayActive(s, step, c);
    }
  }

  lemma {:induction false} RunKeepsActiveBinds(s: System, steps: seq<Step>)
    requires ActiveBinds(s) && ValidRun(s, steps)
    ensures ActiveBinds(Run(s, steps))
    decreases |steps|
  {
    if steps != [] {
      StepKeepsActiveBinds(s, steps[0]);
      RunKeepsActiveBinds(Do(s, steps[0]), steps[1..]);
    }
  }

  /** In every run a workspace is bound only while it is Active. */
  lemma BindsNeedActive(steps: seq<Step>, i: nat)
    requires ValidRun(INIT, steps) && 0 < i < |Run(INIT, steps).log| && Run(INIT, steps).log[i].writer.Bound?
    ensures Run(INIT, steps).log[i - 1].ws.phase.Active?
  {
    RunKeepsActiveBinds(INIT, steps);
  }

  // ------------------------------------------------------ the wrap is reachable

  lemma {:induction false} RunAppend(s: System, a: seq<Step>, b: seq<Step>)
    requires ValidRun(s, a) && ValidRun(Run(s, a), b)
    ensures ValidRun(s, a + b) && Run(s, a + b) == Run(Run(s, a), b)
    decreases |a|
  {
    if a == [] {
      assert a + b == b;
    } else {
      assert (a + b)[1..] == a[1..] + b;
      RunAppend(Do(s, a[0]), a[1..], b);
    }
  }

  lemma TwoSteps(s: System, a: Step, b: Step)
    requires Enabled(s, a) && Enabled(Do(s, a), b)
    ensures ValidRun(s, [a, b]) && Run(s, [a, b]) == Do(Do(s, a), b)
  {
    var s1 := Do(s, a);
    var s2 := Do(s1, b);
    assert [b][1..] == [] && [a, b][1..] == [b];
    assert ValidRun(s2, []) && Run(s2, []) == s2;
    assert ValidRun(s1, [b]) && Run(s1, [b]) == Run(s2, [b][1..]);
    assert Run(s, [a, b]) == Run(s1, [a, b][1..]);
  }

  /** Two runs that take turns, so that every bind counts. */
  function Runner(n: nat): string {
    if n == 0 then "" else if Runner(n - 1) == "a" then "b" else "a"
  }

  /** A free, active workspace after `n` counted binds. */
  predicate Counted(s: System, n: nat) {
    && s.clients == map[] && s.log != []
    && var ws := Current(s.log);
       ws.phase.Active? && ws.activeRunRef == "" && !ws.deleting
       && ws.totalRuns == Int32(n) && ws.lastCountedRun == Runner(n)
  }

  /** The copy that a bind by the next run writes. */
  lemma NextEdit(ws: Workspace, n: nat)
    requires ws.totalRuns == Int32(n) && ws.lastCountedRun == Runner(n)
    ensures BindEdit(ws, Runner(n + 1)) ==
            ws.(totalRuns := Int32(n + 1), lastCountedRun := Runner(n + 1), activeRunRef := Runner(n + 1))
  {
    Int32Step(n);
  }

  lemma BindOnce(s: System, run: string) returns (steps: seq<Step>, t: System)
    requires s.clients == map[] && s.log != [] && run != ""
    requires Current(s.log).phase.Active? && Current(s.log).activeRunRef == "" && !Current(s.log).deleting
    ensures ValidRun(s, steps) && Run(s, steps) == t && t.clients == map[]
    ensures |t.log| == |s.log| + 1 && t.log[|s.log| - 1] == s.log[|s.log| - 1]
    ensures Current(t.log) == BindEdit(Current(s.log), run)
  {
    var read := ReadForBind(0, run, |s.log| - 1);
    TwoSteps(s, read, Write(0));
    steps := [read, Write(0)];
    t := Run(s, steps);
  }

  lemma ClearOnce(s: System, run: string) returns (steps: seq<Step>, t: System)
    requires s.clients == map[] && s.log != [] && run != ""
             && Current(s.log).activeRunRef == run && !Current(s.log).deleting
    ensures ValidRun(s, steps) && Run(s, steps) == t && t.clients == map[] && t.log != []
    ensures Current(t.log) == Current(s.log).(activeRunRef := "")
  {
    var read := ReadForClear(0, run, |s.log| - 1, |s.log| - 1);
    TwoSteps(s, read, Write(0));
    steps := [read, Write(0)];
    t := Run(s, steps);
  }

  /** One more counted bind and its clear. */
  lemma CountNext(s: System, n: nat) returns (steps: seq<Step>, t: System)
    requires Counted(s, n)
    ensures ValidRun(s, steps) && Run(s, steps) == t && Counted(t, n + 1)
  {
    NextEdit(Current(s.log), n);
    var b, s1 := BindOnce(s, Runner(n + 1));
    var c;
    c, t := ClearOnce(s1, Runner(n + 1));
    RunAppend(s, b, c);
    steps := b + c;
  }

  lemma CountStarts() returns (steps: seq<Step>)
    ensures ValidRun(INIT, steps) && Counted(Run(INIT, steps), 0)
  {
    TwoSteps(INIT, ReadForReconcile(0, 0, Active), Write(0));
    steps := [ReadForReconcile(0, 0, Active), Write(0)];
  }

  /** Every number of counted binds is reachable. */
  lemma {:induction false} CountCanReach(n: nat) returns (steps: seq<Step>, t: System)
    ensures ValidRun(INIT, steps) && Run(INIT, steps) == t && Counted(t, n)
  {
    if n == 0 {
      steps := CountStarts();
      t := Run(INIT, steps);
    } else {
      var a, s := CountCanReach(n - 1);
      var b;
      b, t := CountNext(s, n - 1);
      RunAppend(INIT, a, b);
      steps := a + b;
    }
  }

  /** The bind after 2^31 - 1 counted ones stores a smaller count. */
  lemma WrapOnce(s: System) returns (steps: seq<Step>, t: System)
    requires Counted(s, 0x7fff_ffff)
    ensures ValidRun(s, steps) && Run(s, steps) == t && |t.log| == |s.log| + 1
    ensures t.log[|s.log|].ws.totalRuns < t.log[|s.log| - 1].ws.totalRuns
  {
    NextEdit(Current(s.log), 0x7fff_ffff);
    steps, t := BindOnce(s, Runner(0x8000_0000));
  }

  /** So there is a run in which totalRuns decreases. */
  lemma TotalRunsCanDecrease() returns (steps: seq<Step>, i: nat)
    ensures ValidRun(INIT, steps) && 0 < i < |Run(INIT, steps).log|
    ensures Run(INIT, steps).log[i].ws.totalRuns < Run(INIT, steps).log[i - 1].ws.totalRuns
  {
    var a, s := CountCanReach(0x7fff_ffff);
    var b, t := WrapOnce(s);
    RunAppend(INIT, a, b);
    steps, i := a + b, |s.log|;
  }

  lemma PrefixIsHistory(log: Log, i: nat)
    requires History(log) && 0 < i <= |log|
    ensures History(log[..i]) && Current(log[..i]) == log[i - 1].ws
  {
  }
}
