/**
 Shell capabilities: mergeShell (internal/policy/intersect.go) folds the capabilities of every
 matching policy into one, and shellPhaseAllowed (internal/broker/stream.go) gives the merged
 capability its meaning.
 */
module ShellMerge {
  import opened Wrappers

  datatype ShellCapability = ShellCapability(
    target: string, command: seq<string>, allowedPhases: seq<string>, recordTranscript: bool)

  const PHASES_WITH_POD: set<string> := {"Running", "Idle", "Succeeded", "Failed", "Cancelled"}

  /** shellPhaseAllowed. */
  predicate PhaseAllowed(c: ShellCapability, phase: string) {
    if c.allowedPhases == [] then phase in PHASES_WITH_POD else phase in c.allowedPhases
  }

  /** An open list means the five phases in which a run has a pod; any other list means itself. */
  lemma PhaseAllowedIff(c: ShellCapability, phase: string)
    ensures PhaseAllowed(c, phase) <==>
            if |c.allowedPhases| > 0 then exists i :: 0 <= i < |c.allowedPhases| && c.allowedPhases[i] == phase
            else || phase == "Running" || phase == "Idle" || phase == "Succeeded"
                 || phase == "Failed" || phase == "Cancelled"
  {
  }

  /** `base` followed by the members of `extra` not seen before, each once. */
  function Extend(base: seq<string>, extra: seq<string>): (r: seq<string>)
    ensures forall x :: x in r <==> x in base || x in extra
    ensures base <= r
    decreases |extra|
  {
    if extra == [] then base
    else
      assert extra == [extra[0]] + extra[1..];
      Extend(if extra[0] in base then base else base + [extra[0]], extra[1..])
  }

  /** The union repeats nothing that `base` does not. */
  lemma {:induction false} ExtendKeepsDistinct(base: seq<string>, extra: seq<string>)
    requires Distinct(base)
    ensures Distinct(Extend(base, extra))
    decreases |extra|
  {
    if extra != [] {
      ExtendKeepsDistinct(if extra[0] in base then base else base + [extra[0]], extra[1..]);
    }
  }

  /** The deduplicating union inside mergeShell. */
  method MergePhases(base: seq<string>, extra: seq<string>) returns (phases: seq<string>)
    ensures phases == Extend(base, extra)
  {
    phases := base;
    var seen := set p | p in base;
    for i := 0 to |extra|
      invariant forall p :: p in seen <==> p in phases
      invariant Extend(phases, extra[i..]) == Extend(base, extra)
    {
      assert extra[i..][1..] == extra[i + 1..];
      if extra[i] !in seen {
        phases := phases + [extra[i]];
        seen := seen + {extra[i]};
      }
    }
  }

  /** mergeShell: the most permissive combination of two capabilities. */
  method MergeShell(a: Option<ShellCapability>, b: ShellCapability) returns (out: ShellCapability)
    ensures out == Merge(a, b)
  {
    if a.None? {
      return b;
    }
    out := a.value;
    if b.target == "agent" {
      out := out.(target := "agent");
    }
    if |b.allowedPhases| == 0 {
      out := out.(allowedPhases := []);
    } else if |out.allowedPhases| > 0 {
      var phases := MergePhases(out.allowedPhases, b.allowedPhases);
      out := out.(allowedPhases := phases);
    }
    if b.recordTranscript {
      out := out.(recordTranscript := true);
    }
    if |out.command| == 0 && |b.command| > 0 {
      out := out.(command := b.command);
    }
  }

  /** What MergeShell computes. */
  function Merge(a: Option<ShellCapability>, b: ShellCapability): ShellCapability {
    match a
    case None => b
    case Some(c) =>
      ShellCapability(
        if b.target == "agent" then "agent" else c.target,
        if c.command == [] then b.command else c.command,
        if b.allowedPhases == [] || c.allowedPhases == [] then [] else Extend(c.allowedPhases, b.allowedPhases),
        c.recordTranscript || b.recordTranscript)
  }

  /** The fold IntersectMatches runs over the capabilities of the matching policies, in order. */
  function MergeAll(caps: seq<ShellCapability>): Option<ShellCapability> {
    if caps == [] then None else Some(Merge(MergeAll(caps[..|caps| - 1]), caps[|caps| - 1]))
  }

  ghost predicate SomeAllows(caps: seq<ShellCapability>, phase: string) {
    exists c :: c in caps && PhaseAllowed(c, phase)
  }

  /** Some policy leaves its phases open, which means "every phase with a pod". */
  ghost predicate SomeUnrestricted(caps: seq<ShellCapability>) {
    exists c :: c in caps && c.allowedPhases == []
  }

  /**
   The merged capability allows a phase exactly when some policy allows it, except that a listed
   phase without a pod is dropped once some policy leaves its phases open.
   */
  lemma {:induction false} MergedPhases(caps: seq<ShellCapability>, phase: string)
    requires caps != []
    ensures MergeAll(caps).value.allowedPhases == [] <==> SomeUnrestricted(caps)
    ensures PhaseAllowed(MergeAll(caps).value, phase)
            <==> SomeAllows(caps, phase) && (phase in PHASES_WITH_POD || !SomeUnrestricted(caps))
    decreases |caps|
  {
    var init, last := caps[..|caps| - 1], caps[|caps| - 1];
    assert caps == init + [last];
    if init != [] {
      MergedPhases(init, phase);
      MergeStep(MergeAll(init).value, last, phase);
      SomeNext(init, last, phase);
      UnrestrictedAllowsPods(init, phase);
    } else {
      assert last in caps && forall c :: c in caps ==> c == last;
      assert MergeAll(caps).value == last;
    }
  }

  lemma SomeNext(init: seq<ShellCapability>, last: ShellCapability, phase: string)
    ensures SomeUnrestricted(init + [last]) <==> SomeUnrestricted(init) || last.allowedPhases == []
    ensures SomeAllows(init + [last], phase) <==> SomeAllows(init, phase) || PhaseAllowed(last, phase)
  {
    assert forall c :: c in init + [last] <==> c in init || c == last;
  }

  /** One merge: an open side makes the result open, else the lists are joined. */
  lemma MergeStep(a: ShellCapability, b: ShellCapability, phase: string)
    ensures Merge(Some(a), b).allowedPhases == [] <==> a.allowedPhases == [] || b.allowedPhases == []
    ensures PhaseAllowed(Merge(Some(a), b), phase) <==>
            if a.allowedPhases == [] || b.allowedPhases == [] then phase in PHASES_WITH_POD
            else PhaseAllowed(a, phase) || PhaseAllowed(b, phase)
  {
    if a.allowedPhases != [] && b.allowedPhases != [] {
      assert a.allowedPhases <= Extend(a.allowedPhases, b.allowedPhases);
    }
  }

  /** Such a dropped phase: "Pending" is listed by one policy and lost to another that lists none. */
  lemma ListedPhaseCanBeLost()
    ensures var caps := [ShellCapability("", [], ["Pending"], false), ShellCapability("", [], [], false)];
            SomeAllows(caps, "Pending") && !PhaseAllowed(MergeAll(caps).value, "Pending")
  {
    var listed, open := ShellCapability("", [], ["Pending"], false), ShellCapability("", [], [], false);
    var caps := [listed, open];
    assert caps[0] == listed && caps[1] == open;
    assert listed in caps && open in caps;
    assert PhaseAllowed(listed, "Pending") && "Pending" !in PHASES_WITH_POD;
    MergedPhases(caps, "Pending");
  }

  lemma UnrestrictedAllowsPods(caps: seq<ShellCapability>, phase: string)
    ensures SomeUnrestricted(caps) && phase in PHASES_WITH_POD ==> SomeAllows(caps, phase)
  {
    if c :| c in caps && c.allowedPhases == [] {
      assert phase in PHASES_WITH_POD ==> PhaseAllowed(c, phase);
    }
  }

  /** A phase with a pod: allowed iff some policy allows it; any phase: never without a policy. */
  lemma MergedShellMeaning(caps: seq<ShellCapability>, phase: string)
    requires caps != []
    ensures phase in PHASES_WITH_POD ==> (PhaseAllowed(MergeAll(caps).value, phase) <==> SomeAllows(caps, phase))
    ensures PhaseAllowed(MergeAll(caps).value, phase) ==> SomeAllows(caps, phase)
  {
    MergedPhases(caps, phase);
  }

  lemma {:induction false} MergedFlags(caps: seq<ShellCapability>)
    requires caps != []
    ensures MergeAll(caps).value.target == "agent" <==> exists c :: c in caps && c.target == "agent"
    ensures MergeAll(caps).value.recordTranscript <==> exists c :: c in caps && c.recordTranscript
    decreases |caps|
  {
    var init, last := caps[..|caps| - 1], caps[|caps| - 1];
    assert caps == init + [last];
    assert forall c :: c in caps <==> c in init || c == last;
    if init != [] {
      MergedFlags(init);
    } else {
      assert caps == [last];
    }
  }

  /** Without "agent" the target is that of the first policy. */
  lemma {:induction false} MergedTarget(caps: seq<ShellCapability>)
    requires caps != [] && forall i :: 0 <= i < |caps| ==> caps[i].target != "agent"
    ensures MergeAll(caps).value.target == caps[0].target
    decreases |caps|
  {
    if |caps| > 1 {
      MergedTarget(caps[..|caps| - 1]);
    }
  }

  /** The command is that of the first policy that sets one. */
  lemma {:induction false} MergedCommand(caps: seq<ShellCapability>, i: nat)
    requires i < |caps| && caps[i].command != []
    requires forall j :: 0 <= j < i ==> caps[j].command == []
    ensures MergeAll(caps).value.command == caps[i].command
    decreases |caps|
  {
    if i < |caps| - 1 {
      MergedCommand(caps[..|caps| - 1], i);
    } else {
      NoCommand(caps[..i]);
    }
  }

  lemma {:induction false} NoCommand(caps: seq<ShellCapability>)
    requires forall j :: 0 <= j < |caps| ==> caps[j].command == []
    ensures caps != [] ==> MergeAll(caps).value.command == []
    decreases |caps|
  {
    if caps != [] {
      NoCommand(caps[..|caps| - 1]);
    }
  }

  /** Policy order changes neither the allowed phases, nor the target, nor the recording. */
  lemma OrderDoesNotMatter(caps: seq<ShellCapability>, caps': seq<ShellCapability>, phase: string)
    requires caps != [] && caps' != []
    requires forall c :: c in caps <==> c in caps'
    ensures var m, m' := MergeAll(caps).value, MergeAll(caps').value;
            && PhaseAllowed(m, phase) == PhaseAllowed(m', phase)
            && (m.target == "agent") == (m'.target == "agent")
            && m.recordTranscript == m'.recordTranscript
  {
    MergedPhases(caps, phase);
    MergedPhases(caps', phase);
    MergedFlags(caps);
    MergedFlags(caps');
    assert SomeAllows(caps, phase) == SomeAllows(caps', phase);
    assert SomeUnrestricted(caps) == SomeUnrestricted(caps');
  }
}
