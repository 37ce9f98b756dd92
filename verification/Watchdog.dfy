/**
 The interactive watchdog (nextDeadline in internal/controller/interactive_watchdog.go) and the
 requeue loop around it (internal/controller/harnessrun_controller.go). Times and durations are
 nanoseconds.
 */
module Watchdog {
  import opened Wrappers

  const SECOND := 1_000_000_000
  const MINUTE := 60 * SECOND
  const HOUR := 60 * MINUTE

  datatype Action = NoAction | CancelIdle | CancelDetach | CancelMaxLifetime

  /** The four optional durations of a template's interactive section or of a run's overrides. */
  datatype Durations = Durations(idle: Option<int>, detachIdle: Option<int>,
                                   detach: Option<int>, maxLifetime: Option<int>)

  datatype Limits = Limits(idle: int, detachIdle: int, detach: int, maxLifetime: int)

  datatype Status = Status(attachedSessions: int, idleSince: Option<int>, lastAttachedAt: Option<int>)

  /** A positive duration, or the fallback. */
  function Bound(d: Option<int>, fallback: int): int {
    if d.Some? && d.value > 0 then d.value else fallback
  }

  predicate Positive(d: Option<int>) {
    d.Some? && d.value > 0
  }

  /** `v` is the first positive one of override, template and built-in value. */
  predicate FirstPositive(v: int, override: Option<int>, template: Option<int>, builtIn: int) {
    && v > 0
    && (Positive(override) ==> v == override.value)
    && (!Positive(override) && Positive(template) ==> v == template.value)
    && (!Positive(override) && !Positive(template) ==> v == builtIn)
  }

  const NO_OVERRIDES := Durations(None, None, None, None)

  /** Run overrides win over the template, the template over the built-in values. */
  function EffectiveLimits(spec: Durations, overrides: Option<Durations>): (l: Limits)
    ensures var o := overrides.GetOr(NO_OVERRIDES);
            && FirstPositive(l.idle, o.idle, spec.idle, 1_800_000_000_000)
            && FirstPositive(l.detachIdle, o.detachIdle, spec.detachIdle, 900_000_000_000)
            && FirstPositive(l.detach, o.detach, spec.detach, 300_000_000_000)
            && FirstPositive(l.maxLifetime, o.maxLifetime, spec.maxLifetime, 86_400_000_000_000)
  {
    var base := Limits(Bound(spec.idle, 30 * MINUTE), Bound(spec.detachIdle, 15 * MINUTE),
                       Bound(spec.detach, 5 * MINUTE), Bound(spec.maxLifetime, 24 * HOUR));
    match overrides
    case None => base
    case Some(o) => Limits(Bound(o.idle, base.idle), Bound(o.detachIdle, base.detachIdle),
                           Bound(o.detach, base.detach), Bound(o.maxLifetime, base.maxLifetime))
  }

  /** When the idle timer of a status runs out. */
  function IdleDeadline(l: Limits, st: Status): Option<int> {
    if st.idleSince.Some? then Some(st.idleSince.value + if st.attachedSessions == 0 then l.detachIdle else l.idle)
    else None
  }

  /** When the detach timer of a status runs out. */
  function DetachDeadline(l: Limits, st: Status): Option<int> {
    if st.attachedSessions == 0 && st.lastAttachedAt.Some? then Some(st.lastAttachedAt.value + l.detach) else None
  }

  /** The earliest deadline of a run. */
  function Earliest(l: Limits, created: int, st: Status): (d: int)
    ensures d <= created + l.maxLifetime
  {
    var i, t, m := IdleDeadline(l, st), DetachDeadline(l, st), created + l.maxLifetime;
    var m1 := if i.Some? && i.value < m then i.value else m;
    if t.Some? && t.value < m1 then t.value else m1
  }

  /** The earliest deadline is the least of the lifetime's and the timers that run. */
  lemma EarliestIsLeast(l: Limits, created: int, st: Status)
    ensures var d := Earliest(l, created, st);
            var idle := if st.attachedSessions == 0 then l.detachIdle else l.idle;
            && d <= created + l.maxLifetime
            && (st.idleSince.Some? ==> d <= st.idleSince.value + idle)
            && (st.attachedSessions == 0 && st.lastAttachedAt.Some? ==> d <= st.lastAttachedAt.value + l.detach)
            && (|| d == created + l.maxLifetime
                || (st.idleSince.Some? && d == st.idleSince.value + idle)
                || (st.attachedSessions == 0 && st.lastAttachedAt.Some? && d == st.lastAttachedAt.value + l.detach))
  {
  }

  predicate Passed(d: Option<int>, now: int) {
    d.Some? && d.value <= now
  }

  /** The minimum loop of nextDeadline. */
  method Smallest(candidates: seq<int>) returns (smallest: int)
    requires candidates != []
    ensures smallest in candidates && forall c :: c in candidates ==> smallest <= c
  {
    smallest := candidates[0];
    for i := 0 to |candidates|
      invariant smallest in candidates
      invariant forall j :: 0 <= j < i ==> smallest <= candidates[j]
    {
      if candidates[i] < smallest {
        smallest := candidates[i];
      }
    }
  }

  /** nextDeadline for an interactive run. */
  method NextDeadline(now: int, interactive: bool, spec: Option<Durations>, overrides: Option<Durations>,
                      created: int, status: Option<Status>) returns (action: Action, after: int)
    ensures !interactive || spec.None? ==> action == NoAction && after == 0
    ensures interactive && spec.Some? ==>
      var l, st := EffectiveLimits(spec.value, overrides), status.GetOr(Status(0, None, None));
      && (action == NoAction <==> now < Earliest(l, created, st))
      && (action == CancelIdle <==> Passed(IdleDeadline(l, st), now))
      && (action == CancelDetach <==> Passed(DetachDeadline(l, st), now) && !Passed(IdleDeadline(l, st), now))
      && after == if action == NoAction then Pause(Earliest(l, created, st), now) else 0
    ensures interactive && spec.Some? ==>
      var l, st := EffectiveLimits(spec.value, overrides), status.GetOr(Status(0, None, None));
      var idleFor := if st.attachedSessions == 0 then l.detachIdle else l.idle;
      && (action == CancelIdle <==> st.idleSince.Some? && now - st.idleSince.value >= idleFor)
      && (action == CancelDetach <==>
            action != CancelIdle && st.attachedSessions == 0
            && st.lastAttachedAt.Some? && now - st.lastAttachedAt.value >= l.detach)
      && (action == CancelMaxLifetime <==>
            action != CancelIdle && action != CancelDetach && now - created >= l.maxLifetime)
  {
    if !interactive || spec.None? {
      return NoAction, 0;
    }
    var st := status.GetOr(Status(0, None, None));
    var l := EffectiveLimits(spec.value, overrides);
    var effIdle := if st.attachedSessions == 0 then l.detachIdle else l.idle;
    var sinceIdle, sinceDetach := 0, 0;
    if st.idleSince.Some? {
      sinceIdle := now - st.idleSince.value;
    }
    if st.attachedSessions == 0 && st.lastAttachedAt.Some? {
      sinceDetach := now - st.lastAttachedAt.value;
    }
    var sinceCreate := now - created;
    if st.idleSince.Some? && sinceIdle >= effIdle {
      return CancelIdle, 0;
    }
    if st.attachedSessions == 0 && st.lastAttachedAt.Some? && sinceDetach >= l.detach {
      return CancelDetach, 0;
    }
    if sinceCreate >= l.maxLifetime {
      return CancelMaxLifetime, 0;
    }
    var candidates := [];
    if st.idleSince.Some? {
      candidates := candidates + [effIdle - sinceIdle];
    }
    if st.attachedSessions == 0 && st.lastAttachedAt.Some? {
      candidates := candidates + [l.detach - sinceDetach];
    }
    candidates := candidates + [l.maxLifetime - sinceCreate];
    var smallest := Smallest(candidates);
    assert candidates[|candidates| - 1] in candidates && candidates[0] in candidates
           && candidates[|candidates| / 2] in candidates;
    assert smallest == Earliest(l, created, st) - now;
    if smallest < SECOND {
      smallest := SECOND;
    }
    return NoAction, smallest;
  }

  /** The requeue delay: until `deadline`, but at least a second. */
  function Pause(deadline: int, now: int): int {
    if deadline - now < SECOND then SECOND else deadline - now
  }

  predicate Fires(l: Limits, created: int, st: Status, now: int) {
    Earliest(l, created, st) <= now
  }

  /** Once firing, an unchanged run keeps firing. */
  lemma FiringPersists(l: Limits, created: int, st: Status, now: int, later: int)
    requires Fires(l, created, st, now) && now <= later
    ensures Fires(l, created, st, later)
  {
  }

  /** The watchdog fires whatever the status is exactly once the run's lifetime is over. */
  lemma FiresInEveryStatusIff(l: Limits, created: int, now: int)
    ensures (forall st :: Fires(l, created, st, now)) <==> created + l.maxLifetime <= now
  {
    if now < created + l.maxLifetime {
      assert !Fires(l, created, Status(0, None, None), now);
    }
  }

  /** With unchanged state the next wake-up fires, at the deadline or less than a second after it. */
  lemma UnchangedRunFiresOnTime(l: Limits, created: int, st: Status, now: int)
    requires !Fires(l, created, st, now)
    ensures var d := Earliest(l, created, st);
            var wake := now + Pause(d, now);
            Fires(l, created, st, wake) && d <= wake < d + 1_000_000_000
            && forall t :: now <= t < d ==> !Fires(l, created, st, t)
  {
  }

  /** Any other controllers and clients: the status at each wake-up and how early it comes. */
  datatype Environment = Environment(status: nat -> Status, early: nat -> nat)

  /** The sleep after wake-up i: the requeue delay, cut short by an event but never to zero. */
  function Sleep(env: Environment, i: nat, pause: int): (d: int)
    requires pause >= 1
    ensures 1 <= d <= pause
  {
    if 1 <= env.early(i) < pause then env.early(i) else pause
  }

  /** The time at which the watchdog loop started at `now` (its wake-up number i) fires. */
  function FireTime(l: Limits, created: int, env: Environment, i: nat, now: int): (t: int)
    decreases if now < created + l.maxLifetime then created + l.maxLifetime - now else 0
  {
    if Fires(l, created, env.status(i), now) then now
    else FireTime(l, created, env, i + 1, now + Sleep(env, i, Pause(Earliest(l, created, env.status(i)), now)))
  }

  /**
   Whatever attach, idle and prompt updates happen between wake-ups, and however early events
   wake the loop, it fires before creation + maxLifetime + 1s (or at once if started later), and
   it fires in a state whose deadline has passed.
   */
  lemma {:induction false} FiresWithinLifetime(l: Limits, created: int, env: Environment, i: nat, now: int)
    ensures var t := FireTime(l, created, env, i, now);
            && now <= t
            && (t == now || t < created + l.maxLifetime + 1_000_000_000)
            && exists k: nat :: k >= i && Fires(l, created, env.status(k), t)
    decreases if now < created + l.maxLifetime then created + l.maxLifetime - now else 0
  {
    if !Fires(l, created, env.status(i), now) {
      var next := now + Sleep(env, i, Pause(Earliest(l, created, env.status(i)), now));
      assert next < created + l.maxLifetime + SECOND;
      FiresWithinLifetime(l, created, env, i + 1, next);
    }
  }
}
