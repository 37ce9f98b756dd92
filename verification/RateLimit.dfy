/**
 The per-run rate limiter of the broker (internal/broker/ratelimit.go). The token bucket of
 golang.org/x/time/rate is an exact one: levels are nano-tokens and times nanoseconds, read from
 the clock that also drives the registry. A denied call leaves its bucket unchanged.
 */
module RateLimit {
  const UNIT := 1_000_000_000            // nano-tokens per token, nanoseconds per second
  const IDLE_TTL := 300 * UNIT

  datatype Kind = Issue | Substitute | Other

  datatype Bucket = Bucket(level: int, last: int)

  datatype RunLimiter = RunLimiter(issue: Bucket, substitute: Bucket, lastTouched: int)

  datatype Key = Key(ns: string, name: string)

  type Registry = map<Key, RunLimiter>

  function Rate(kind: Kind): int {
    if kind.Issue? then 5 else 50
  }

  function Full(kind: Kind): int {
    (if kind.Issue? then 10 else 100) * UNIT
  }

  /** The level of a bucket at a later time. */
  function Refill(kind: Kind, b: Bucket, now: int): int {
    var x := b.level + Rate(kind) * (now - b.last);
    if x < Full(kind) then x else Full(kind)
  }

  /** Limiter.Allow. */
  function Take(kind: Kind, b: Bucket, now: int): (bool, Bucket) {
    var x := Refill(kind, b, now);
    if x >= UNIT then (true, Bucket(x - UNIT, now)) else (false, b)
  }

  function Fresh(now: int): RunLimiter {
    RunLimiter(Bucket(Full(Issue), now), Bucket(Full(Substitute), now), now)
  }

  /** One Allow call on a run's limiter. */
  function Admit(rl: RunLimiter, kind: Kind, now: int): (bool, RunLimiter) {
    var touched := rl.(lastTouched := now);
    match kind
    case Issue => var (ok, b) := Take(Issue, rl.issue, now); (ok, touched.(issue := b))
    case Substitute => var (ok, b) := Take(Substitute, rl.substitute, now); (ok, touched.(substitute := b))
    case Other => (true, touched)
  }

  function Lookup(runs: Registry, key: Key, now: int): RunLimiter {
    if key in runs then runs[key] else Fresh(now)
  }

  function Swept(runs: Registry, now: int): Registry {
    map k | k in runs && now - runs[k].lastTouched <= IDLE_TTL :: runs[k]
  }

  /** The registry as the broker holds it. */
  class RunLimiterRegistry {
    var runs: Registry

    constructor ()
      ensures runs == map[]
    {
      runs := map[];
    }

    method Allow(key: Key, kind: Kind, now: int) returns (allowed: bool)
      modifies this
      ensures (allowed, runs) == Do(old(runs), AllowOp(key, kind, now), true)
      ensures key in runs && runs[key].lastTouched == now
      ensures runs - {key} == old(runs) - {key}
    {
      if key !in runs {
        runs := runs[key := Fresh(now)];
      }
      var rl := runs[key];
      rl := rl.(lastTouched := now);
      match kind {
        case Issue =>
          var (ok, b) := Take(Issue, rl.issue, now);
          allowed, rl := ok, rl.(issue := b);
        case Substitute =>
          var (ok, b) := Take(Substitute, rl.substitute, now);
          allowed, rl := ok, rl.(substitute := b);
        case Other =>
          allowed := true;
      }
      runs := runs[key := rl];
      assert runs == old(runs)[key := rl];
    }

    method Sweep(now: int)
      modifies this
      ensures runs == Do(old(runs), SweepOp(now), true).1
      ensures forall k :: k in runs <==> k in old(runs) && now - old(runs)[k].lastTouched <= 300_000_000_000
      ensures forall k :: k in runs ==> runs[k] == old(runs)[k]
    {
      var left := runs.Keys;
      while left != {}
        invariant left <= old(runs).Keys
        invariant runs == map k | k in old(runs) && (k in left || now - old(runs)[k].lastTouched <= IDLE_TTL)
                                  :: old(runs)[k]
        decreases left
      {
        var k :| k in left;
        if now - runs[k].lastTouched > IDLE_TTL {
          runs := runs - {k};
        }
        left := left - {k};
      }
    }
  }

  // ------------------------------------------------------ traces

  datatype Op = AllowOp(key: Key, kind: Kind, now: int) | SweepOp(now: int)

  /** One call; `sweeping` is false for the registry that never sweeps. */
  function Do(runs: Registry, op: Op, sweeping: bool): (bool, Registry) {
    match op
    case AllowOp(key, kind, now) =>
      var (ok, rl) := Admit(Lookup(runs, key, now), kind, now);
      (ok, runs[key := rl])
    case SweepOp(now) => (true, if sweeping then Swept(runs, now) else runs)
  }

  function Answers(runs: Registry, ops: seq<Op>, sweeping: bool): (r: seq<bool>)
    ensures |r| == |ops|
    decreases |ops|
  {
    if ops == [] then [] else [Do(runs, ops[0], sweeping).0] + Answers(Do(runs, ops[0], sweeping).1, ops[1..], sweeping)
  }

  function After(runs: Registry, ops: seq<Op>, sweeping: bool): Registry
    decreases |ops|
  {
    if ops == [] then runs else After(Do(runs, ops[0], sweeping).1, ops[1..], sweeping)
  }

  /** The clock does not go back. */
  predicate Ordered(from: int, ops: seq<Op>)
    decreases |ops|
  {
    ops == [] || (from <= ops[0].now && Ordered(ops[0].now, ops[1..]))
  }

  /** The time of the last call, or `from` if there is none. */
  function EndTime(from: int, ops: seq<Op>): int {
    if ops == [] then from else ops[|ops| - 1].now
  }

  predicate BucketOk(kind: Kind, b: Bucket, now: int) {
    0 <= b.level <= Full(kind) && b.last <= now
  }

  predicate LimiterOk(rl: RunLimiter, now: int) {
    && BucketOk(Issue, rl.issue, rl.lastTouched) && BucketOk(Substitute, rl.substitute, rl.lastTouched)
    && rl.lastTouched <= now
  }

  /** Two buckets that no call at `now` or later can tell apart. */
  predicate Same(kind: Kind, a: Bucket, b: Bucket, now: int) {
    a == b || (Refill(kind, a, now) == Full(kind) == Refill(kind, b, now) && a.last <= now && b.last <= now)
  }

  predicate SameLimiter(a: RunLimiter, b: RunLimiter, now: int) {
    Same(Issue, a.issue, b.issue, now) && Same(Substitute, a.substitute, b.substitute, now)
  }

  /** The swept registry `a` answers like the unswept `b` from `now` on. */
  ghost predicate Sim(a: Registry, b: Registry, now: int) {
    && (forall k :: k in b ==> LimiterOk(b[k], now))
    && (forall k :: k in a ==> LimiterOk(a[k], now))
    && (forall k :: k in a ==> k in b && SameLimiter(a[k], b[k], now))
    && (forall k :: k in b && k !in a ==> SameLimiter(Fresh(now), b[k], now))
  }

  lemma RefillMonotone(kind: Kind, b: Bucket, t: int, t': int)
    requires b.last <= t <= t'
    ensures Refill(kind, b, t) <= Refill(kind, b, t') <= Refill(kind, b, t) + Rate(kind) * (t' - t)
  {
    assert Rate(kind) * (t' - b.last) == Rate(kind) * (t - b.last) + Rate(kind) * (t' - t);
  }

  lemma SameLater(kind: Kind, a: Bucket, b: Bucket, now: int, later: int)
    requires Same(kind, a, b, now) && now <= later
    ensures Same(kind, a, b, later)
  {
    if a != b {
      RefillMonotone(kind, a, now, later);
      RefillMonotone(kind, b, now, later);
    }
  }

  /** Five minutes of idleness fill both buckets: they hold two seconds of tokens. */
  lemma IdleIsFull(kind: Kind, b: Bucket, touched: int, now: int)
    requires BucketOk(kind, b, touched) && now - touched > IDLE_TTL
    ensures Refill(kind, b, now) == Full(kind)
  {
  }

  lemma SimLater(a: Registry, b: Registry, now: int, later: int)
    requires Sim(a, b, now) && now <= later
    ensures Sim(a, b, later)
  {
    forall k | k in a ensures SameLimiter(a[k], b[k], later) {
      SameLater(Issue, a[k].issue, b[k].issue, now, later);
      SameLater(Substitute, a[k].substitute, b[k].substitute, now, later);
    }
    forall k | k in b && k !in a ensures SameLimiter(Fresh(later), b[k], later) {
      FreshLater(b[k], now, later);
    }
  }

  lemma FreshLater(rl: RunLimiter, now: int, later: int)
    requires SameLimiter(Fresh(now), rl, now) && now <= later
    ensures SameLimiter(Fresh(later), rl, later)
  {
    SameLater(Issue, Fresh(now).issue, rl.issue, now, later);
    SameLater(Substitute, Fresh(now).substitute, rl.substitute, now, later);
  }

  /** Equivalent limiters give the same answer and stay equivalent. */
  lemma AdmitAlike(a: RunLimiter, b: RunLimiter, kind: Kind, now: int)
    requires SameLimiter(a, b, now) && LimiterOk(a, now) && LimiterOk(b, now)
    ensures Admit(a, kind, now).0 == Admit(b, kind, now).0
    ensures SameLimiter(Admit(a, kind, now).1, Admit(b, kind, now).1, now)
    ensures LimiterOk(Admit(a, kind, now).1, now) && LimiterOk(Admit(b, kind, now).1, now)
  {
  }

  lemma SweepKeepsSim(a: Registry, b: Registry, now: int)
    requires Sim(a, b, now)
    ensures Sim(Swept(a, now), b, now)
  {
    forall k | k in b && k !in Swept(a, now) ensures SameLimiter(Fresh(now), b[k], now) {
      if k in a {
        IdleIsFull(Issue, a[k].issue, a[k].lastTouched, now);
        IdleIsFull(Substitute, a[k].substitute, a[k].lastTouched, now);
      }
    }
  }

  lemma AllowKeepsSim(a: Registry, b: Registry, key: Key, kind: Kind, now: int)
    requires Sim(a, b, now)
    ensures var op := AllowOp(key, kind, now);
            Do(a, op, true).0 == Do(b, op, false).0 && Sim(Do(a, op, true).1, Do(b, op, false).1, now)
  {
    var x, y := Lookup(a, key, now), Lookup(b, key, now);
    assert SameLimiter(x, y, now) && LimiterOk(x, now) && LimiterOk(y, now);
    AdmitAlike(x, y, kind, now);
  }

  lemma DoKeepsSim(a: Registry, b: Registry, op: Op, now: int)
    requires Sim(a, b, now) && now <= op.now
    ensures Do(a, op, true).0 == Do(b, op, false).0
    ensures Sim(Do(a, op, true).1, Do(b, op, false).1, op.now)
  {
    SimLater(a, b, now, op.now);
    if op.AllowOp? {
      AllowKeepsSim(a, b, op.key, op.kind, op.now);
    } else {
      SweepKeepsSim(a, b, op.now);
    }
  }

  lemma {:induction false} SimulatedTrace(a: Registry, b: Registry, ops: seq<Op>, now: int)
    requires Sim(a, b, now) && Ordered(now, ops)
    ensures Answers(a, ops, true) == Answers(b, ops, false)
    ensures Sim(After(a, ops, true), After(b, ops, false), EndTime(now, ops))
    decreases |ops|
  {
    if ops != [] {
      DoKeepsSim(a, b, ops[0], now);
      SimulatedTrace(Do(a, ops[0], true).1, Do(b, ops[0], false).1, ops[1..], ops[0].now);
    }
  }

  /** Sweeping is invisible: every trace gets the answers of a registry that never sweeps. */
  lemma SweepingIsInvisible(ops: seq<Op>, start: int)
    requires Ordered(start, ops)
    ensures Answers(map[], ops, true) == Answers(map[], ops, false)
  {
    SimulatedTrace(map[], map[], ops, start);
  }

  // ------------------------------------------------------ the admission bound

  /** Calls of `kind` for `key` that were admitted. */
  function Admitted(ops: seq<Op>, answers: seq<bool>, key: Key, kind: Kind): nat
    requires |ops| == |answers|
    decreases |ops|
  {
    if ops == [] then 0
    else (if ops[0].AllowOp? && ops[0].key == key && ops[0].kind == kind && answers[0] then 1 else 0)
         + Admitted(ops[1..], answers[1..], key, kind)
  }

  function BucketOf(rl: RunLimiter, kind: Kind): Bucket {
    if kind.Issue? then rl.issue else rl.substitute
  }

  /** Tokens available to (key, kind) at time t. */
  function Level(runs: Registry, key: Key, kind: Kind, t: int): int {
    if key in runs then Refill(kind, BucketOf(runs[key], kind), t) else Full(kind)
  }

  ghost predicate RegistryOk(runs: Registry, now: int) {
    forall k :: k in runs ==> LimiterOk(runs[k], now)
  }

  lemma AdmitSpends(rl: RunLimiter, k: Kind, kind: Kind, now: int)
    requires LimiterOk(rl, now) && !kind.Other?
    ensures var (ok, rl') := Admit(rl, k, now);
            && LimiterOk(rl', now)
            && Refill(kind, BucketOf(rl', kind), now) + (if k == kind && ok then UNIT else 0)
               == Refill(kind, BucketOf(rl, kind), now)
  {
  }

  /** One step of the unswept registry spends what it admits and earns at most rate times time. */
  lemma StepPaysForAdmission(runs: Registry, op: Op, key: Key, kind: Kind, now: int)
    requires RegistryOk(runs, now) && now <= op.now && !kind.Other?
    ensures var (ok, runs') := Do(runs, op, false);
            && RegistryOk(runs', op.now)
            && Level(runs', key, kind, op.now)
                 + (if op.AllowOp? && op.key == key && op.kind == kind && ok then UNIT else 0)
               <= Level(runs, key, kind, now) + Rate(kind) * (op.now - now)
  {
    if key in runs {
      RefillMonotone(kind, BucketOf(runs[key], kind), now, op.now);
    }
    if op.AllowOp? {
      AdmitSpends(Lookup(runs, op.key, op.now), op.kind, kind, op.now);
    }
  }

  lemma {:induction false} TracePaysForAdmission(runs: Registry, ops: seq<Op>, key: Key, kind: Kind, now: int)
    requires RegistryOk(runs, now) && Ordered(now, ops) && !kind.Other?
    ensures Admitted(ops, Answers(runs, ops, false), key, kind) * UNIT
            <= Level(runs, key, kind, now) + Rate(kind) * (EndTime(now, ops) - now)
    decreases |ops|
  {
    if ops == [] {
      LevelNotNegative(runs, key, kind, now);
    } else {
      var op, rest := ops[0], ops[1..];
      var (ok, runs') := Do(runs, op, false);
      StepPaysForAdmission(runs, op, key, kind, now);
      TracePaysForAdmission(runs', rest, key, kind, op.now);
      assert Answers(runs, ops, false)[1..] == Answers(runs', rest, false);
      assert EndTime(now, ops) == EndTime(op.now, rest);
    }
  }

  lemma LevelNotNegative(runs: Registry, key: Key, kind: Kind, now: int)
    requires RegistryOk(runs, now)
    ensures 0 <= Level(runs, key, kind, now)
  {
    if key in runs {
      assert BucketOf(runs[key], kind).last <= now;
      assert Rate(kind) * (now - BucketOf(runs[key], kind).last) >= 0;
    }
  }

  /**
   After any history, the calls admitted to one run and kind within a window of `end - begin`
   nanoseconds number at most burst + rate * window, with sweeping on.
   */
  lemma AdmissionBound(history: seq<Op>, window: seq<Op>, key: Key, kind: Kind, start: int, begin: int, end: int)
    requires !kind.Other? && Ordered(start, history) && Ordered(begin, window)
    requires EndTime(start, history) <= begin && EndTime(begin, window) <= end
    ensures Admitted(window, Answers(After(map[], history, true), window, true), key, kind) * UNIT
            <= Full(kind) + Rate(kind) * (end - begin)
  {
    SimulatedTrace(map[], map[], history, start);
    var a, b := After(map[], history, true), After(map[], history, false);
    SimLater(a, b, EndTime(start, history), begin);
    SimulatedTrace(a, b, window, begin);
    TracePaysForAdmission(b, window, key, kind, begin);
    assert Rate(kind) * (EndTime(begin, window) - begin) <= Rate(kind) * (end - begin);
  }

  // ------------------------------------------------------ exactly when a call is admitted

  /** The calls of `kind` for `key` admitted at time `from` or later. */
  function AdmittedSince(ops: seq<Op>, answers: seq<bool>, key: Key, kind: Kind, from: int): nat
    requires |ops| == |answers|
    decreases |ops|
  {
    if ops == [] then 0
    else
      var n := |ops| - 1;
      AdmittedSince(ops[..n], answers[..n], key, kind, from)
      + if Counts(ops[n], answers[n], key, kind) && from <= ops[n].now then 1 else 0
  }

  predicate Counts(op: Op, answer: bool, key: Key, kind: Kind) {
    op.AllowOp? && op.key == key && op.kind == kind && answer
  }

  /** What a window of `t - from` nanoseconds leaves of burst and rate after `count` calls. */
  function Left(kind: Kind, from: int, t: int, count: nat): int {
    Full(kind) + Rate(kind) * (t - from) - count * UNIT
  }

  lemma {:induction false} AnswersAppend(runs: Registry, ops: seq<Op>, op: Op, sweeping: bool)
    ensures Answers(runs, ops + [op], sweeping) ==
            Answers(runs, ops, sweeping) + [Do(After(runs, ops, sweeping), op, sweeping).0]
    ensures After(runs, ops + [op], sweeping) == Do(After(runs, ops, sweeping), op, sweeping).1
    decreases |ops|
  {
    if ops == [] {
      assert ops + [op] == [op] && [op][1..] == [];
    } else {
      assert (ops + [op])[1..] == ops[1..] + [op];
      AnswersAppend(Do(runs, ops[0], sweeping).1, ops[1..], op, sweeping);
    }
  }

  lemma {:induction false} OrderedPrefix(from: int, ops: seq<Op>)
    requires Ordered(from, ops) && ops != []
    ensures Ordered(from, ops[..|ops| - 1]) && from <= EndTime(from, ops[..|ops| - 1]) <= ops[|ops| - 1].now
    decreases |ops|
  {
    if |ops| > 1 {
      OrderedPrefix(ops[0].now, ops[1..]);
      assert ops[1..][..|ops| - 2] == ops[..|ops| - 1][1..];
    }
  }

  /** Between two times the level rises at the rate, up to the burst. */
  lemma LevelLater(runs: Registry, key: Key, kind: Kind, t: int, t': int)
    requires RegistryOk(runs, t) && t <= t' && !kind.Other?
    ensures var x := Level(runs, key, kind, t) + Rate(kind) * (t' - t);
            Level(runs, key, kind, t') == if x < Full(kind) then x else Full(kind)
  {
    if key in runs {
      var b := BucketOf(runs[key], kind);
      assert Rate(kind) * (t' - b.last) == Rate(kind) * (t - b.last) + Rate(kind) * (t' - t);
    }
  }

  /** A call takes exactly one token from its own bucket if it is admitted, and nothing from others. */
  lemma StepSpends(runs: Registry, op: Op, key: Key, kind: Kind)
    requires RegistryOk(runs, op.now) && !kind.Other?
    ensures var (ok, runs') := Do(runs, op, false);
            && RegistryOk(runs', op.now)
            && Level(runs', key, kind, op.now) + (if Counts(op, ok, key, kind) then UNIT else 0)
               == Level(runs, key, kind, op.now)
  {
    if op.AllowOp? {
      AdmitSpends(Lookup(runs, op.key, op.now), op.kind, kind, op.now);
    }
  }

  /** `level` is the least that any window ending at `t` leaves. */
  ghost predicate IsLeast(ops: seq<Op>, answers: seq<bool>, key: Key, kind: Kind, t: int, level: int)
    requires |ops| == |answers|
  {
    && (forall from :: from <= t ==> level <= Left(kind, from, t, AdmittedSince(ops, answers, key, kind, from)))
    && (exists from :: from <= t && level == Left(kind, from, t, AdmittedSince(ops, answers, key, kind, from)))
  }

  lemma {:induction false} NoneSinceEnd(start: int, ops: seq<Op>, answers: seq<bool>, key: Key, kind: Kind, from: int)
    requires |ops| == |answers| && Ordered(start, ops) && EndTime(start, ops) < from
    ensures AdmittedSince(ops, answers, key, kind, from) == 0
    decreases |ops|
  {
    if ops != [] {
      OrderedPrefix(start, ops);
      NoneSinceEnd(start, ops[..|ops| - 1], answers[..|ops| - 1], key, kind, from);
    }
  }

  lemma LeftLater(kind: Kind, from: int, t: int, t': int, count: nat)
    ensures Left(kind, from, t', count) == Left(kind, from, t, count) + Rate(kind) * (t' - t)
  {
    assert Rate(kind) * (t' - from) == Rate(kind) * (t - from) + Rate(kind) * (t' - t);
  }

  /** Time passes after the last call: windows that begin later are empty and leave at least the burst. */
  lemma LeastLater(start: int, ops: seq<Op>, answers: seq<bool>, key: Key, kind: Kind, t: int, t': int, level: int)
    requires |ops| == |answers| && Ordered(start, ops) && EndTime(start, ops) <= t <= t'
    requires IsLeast(ops, answers, key, kind, t, level) && level <= Full(kind)
    ensures var x := level + Rate(kind) * (t' - t);
            IsLeast(ops, answers, key, kind, t', if x < Full(kind) then x else Full(kind))
  {
    var x := level + Rate(kind) * (t' - t);
    var level' := if x < Full(kind) then x else Full(kind);
    forall from | from <= t'
      ensures level' <= Left(kind, from, t', AdmittedSince(ops, answers, key, kind, from))
    {
      if from <= t {
        LeftLater(kind, from, t, t', AdmittedSince(ops, answers, key, kind, from));
      } else {
        NoneSinceEnd(start, ops, answers, key, kind, from);
        assert Rate(kind) * (t' - from) >= 0;
      }
    }
    if x < Full(kind) {
      var from :| from <= t && level == Left(kind, from, t, AdmittedSince(ops, answers, key, kind, from));
      LeftLater(kind, from, t, t', AdmittedSince(ops, answers, key, kind, from));
    } else if t < t' {
      NoneSinceEnd(start, ops, answers, key, kind, t');
      assert Left(kind, t', t', 0) == Full(kind);
    } else {
      assert x == level == Full(kind);
    }
  }

  /** One more call, at the end of all windows. */
  lemma LeastNext(ops: seq<Op>, answers: seq<bool>, op: Op, answer: bool, key: Key, kind: Kind, level: int)
    requires |ops| == |answers| && IsLeast(ops, answers, key, kind, op.now, level)
    ensures IsLeast(ops + [op], answers + [answer], key, kind, op.now,
                    level - if Counts(op, answer, key, kind) then UNIT else 0)
  {
    var ops', answers' := ops + [op], answers + [answer];
    assert ops'[..|ops|] == ops && answers'[..|ops|] == answers;
    forall from | from <= op.now
      ensures AdmittedSince(ops', answers', key, kind, from) ==
              AdmittedSince(ops, answers, key, kind, from) + if Counts(op, answer, key, kind) then 1 else 0
    {
    }
    var from :| from <= op.now && level == Left(kind, from, op.now, AdmittedSince(ops, answers, key, kind, from));
    assert level - (if Counts(op, answer, key, kind) then UNIT else 0)
        == Left(kind, from, op.now, AdmittedSince(ops', answers', key, kind, from));
  }

  /** The level of a bucket at the end of any history is the least that any window leaves. */
  lemma {:induction false} LevelIsLeast(ops: seq<Op>, key: Key, kind: Kind, start: int)
    requires Ordered(start, ops) && !kind.Other?
    ensures RegistryOk(After(map[], ops, false), EndTime(start, ops))
    ensures IsLeast(ops, Answers(map[], ops, false), key, kind, EndTime(start, ops),
                    Level(After(map[], ops, false), key, kind, EndTime(start, ops)))
    decreases |ops|
  {
    if ops == [] {
      assert Left(kind, start, start, AdmittedSince([], [], key, kind, start)) == Full(kind);
      forall from | from <= start
        ensures Full(kind) <= Left(kind, from, start, AdmittedSince([], [], key, kind, from))
      {
        assert Rate(kind) * (start - from) >= 0;
      }
    } else {
      var n := |ops| - 1;
      var init, op := ops[..n], ops[n];
      assert ops == init + [op];
      OrderedPrefix(start, ops);
      LevelIsLeast(init, key, kind, start);
      AnswersAppend(map[], init, op, false);
      var runs, t := After(map[], init, false), EndTime(start, init);
      LevelLater(runs, key, kind, t, op.now);
      LevelAtMostFull(runs, key, kind, t);
      LeastLater(start, init, Answers(map[], init, false), key, kind, t, op.now, Level(runs, key, kind, t));
      StepSpends(runs, op, key, kind);
      LeastNext(init, Answers(map[], init, false), op, Do(runs, op, false).0, key, kind,
                Level(runs, key, kind, op.now));
    }
  }

  lemma LevelAtMostFull(runs: Registry, key: Key, kind: Kind, t: int)
    ensures Level(runs, key, kind, t) <= Full(kind)
  {
  }

  /** Burst plus rate of a kind over a window, in nano-tokens. */
  function Quota(kind: Kind, window: int): int {
    if kind.Issue? then 10_000_000_000 + 5 * window else 100_000_000_000 + 50 * window
  }

  /** The call at `t` and the calls admitted from `from` on together stay within burst + rate * window. */
  ghost predicate Fits(history: seq<Op>, answers: seq<bool>, key: Key, kind: Kind, from: int, t: int)
    requires |history| == |answers|
  {
    (AdmittedSince(history, answers, key, kind, from) + 1) * 1_000_000_000 <= Quota(kind, t - from)
  }

  /**
   Exactly when a call is admitted, after any history and with sweeping on: if and only if no
   window that ends with it holds more than burst + rate * window admitted calls, this one
   included. Calls of an unknown kind are always admitted.
   */
  lemma AdmittedIff(history: seq<Op>, key: Key, kind: Kind, start: int, t: int)
    requires Ordered(start, history) && EndTime(start, history) <= t
    ensures var answer := Do(After(map[], history, true), AllowOp(key, kind, t), true).0;
            if kind.Other? then answer
            else answer <==>
                 forall from :: from <= t ==> Fits(history, Answers(map[], history, true), key, kind, from, t)
  {
    if !kind.Other? {
      var e := EndTime(start, history);
      SimulatedTrace(map[], map[], history, start);
      var a, b := After(map[], history, true), After(map[], history, false);
      DoKeepsSim(a, b, AllowOp(key, kind, t), e);
      LevelIsLeast(history, key, kind, start);
      LevelLater(b, key, kind, e, t);
      LevelAtMostFull(b, key, kind, e);
      LeastLater(start, history, Answers(map[], history, false), key, kind, e, t, Level(b, key, kind, e));
      AdmittedByLevel(b, key, kind, t);
      LeastDecides(history, Answers(map[], history, false), key, kind, t, Level(b, key, kind, t));
    }
  }

  /** The bucket decides by its level. */
  lemma AdmittedByLevel(runs: Registry, key: Key, kind: Kind, t: int)
    requires !kind.Other?
    ensures Do(runs, AllowOp(key, kind, t), false).0 <==> Level(runs, key, kind, t) >= 1_000_000_000
  {
  }

  lemma LeastDecides(ops: seq<Op>, answers: seq<bool>, key: Key, kind: Kind, t: int, level: int)
    requires |ops| == |answers| && !kind.Other? && IsLeast(ops, answers, key, kind, t, level)
    ensures level >= 1_000_000_000 <==> forall from :: from <= t ==> Fits(ops, answers, key, kind, from, t)
  {
    forall from | from <= t
      ensures Fits(ops, answers, key, kind, from, t) <==>
              Left(kind, from, t, AdmittedSince(ops, answers, key, kind, from)) >= 1_000_000_000
    {
    }
    var from :| from <= t && level == Left(kind, from, t, AdmittedSince(ops, answers, key, kind, from));
    assert Fits(ops, answers, key, kind, from, t) <==> level >= 1_000_000_000;
  }

  /** The first 10 issue calls and the first 100 substitute calls of a run are admitted. */
  lemma BurstIsAdmitted(history: seq<Op>, key: Key, kind: Kind, start: int, t: int)
    requires Ordered(start, history) && EndTime(start, history) <= t && !kind.Other?
    requires Admitted(history, Answers(map[], history, true), key, kind) < if kind.Issue? then 10 else 100
    ensures Do(After(map[], history, true), AllowOp(key, kind, t), true).0
  {
    var answers := Answers(map[], history, true);
    forall from | from <= t ensures Fits(history, answers, key, kind, from, t) {
      SinceAtMostAll(history, answers, key, kind, from);
    }
    AdmittedIff(history, key, kind, start, t);
  }

  lemma {:induction false} AdmittedLast(ops: seq<Op>, answers: seq<bool>, key: Key, kind: Kind)
    requires |ops| == |answers| && ops != []
    ensures var n := |ops| - 1;
            Admitted(ops, answers, key, kind) ==
            Admitted(ops[..n], answers[..n], key, kind) + if Counts(ops[n], answers[n], key, kind) then 1 else 0
    decreases |ops|
  {
    if |ops| > 1 {
      AdmittedLast(ops[1..], answers[1..], key, kind);
      assert ops[1..][..|ops| - 2] == ops[..|ops| - 1][1..] && answers[1..][..|ops| - 2] == answers[..|ops| - 1][1..];
    }
  }

  lemma {:induction false} SinceAtMostAll(ops: seq<Op>, answers: seq<bool>, key: Key, kind: Kind, from: int)
    requires |ops| == |answers|
    ensures AdmittedSince(ops, answers, key, kind, from) <= Admitted(ops, answers, key, kind)
    decreases |ops|
  {
    if ops != [] {
      AdmittedLast(ops, answers, key, kind);
      SinceAtMostAll(ops[..|ops| - 1], answers[..|ops| - 1], key, kind, from);
    }
  }
}
