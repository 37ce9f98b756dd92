/**
 The transparent-proxy chain (cmd/iptables-init/main.go): bypass-UID RETURNs, a loopback RETURN
 and one REDIRECT per port, each appended only if an equal rule is absent. Ports are compared in
 the spelling iptables normalises them to.
 */
module IptablesInstall {
  import opened Wrappers

  datatype Rule = OwnerReturn(uid: int) | LoopbackReturn | Redirect(dport: string, toPort: int)

  datatype Packet = Packet(uid: int, loopback: bool, dport: string)

  datatype Verdict = Return | RedirectTo(port: int) | NoMatch

  // ------------------------------------------------------ installation

  /** The rules installRules emits, in order. */
  function Desired(uids: seq<int>, dports: seq<string>, proxyPort: int): seq<Rule> {
    seq(|uids| + 1 + |dports|, i requires 0 <= i < |uids| + 1 + |dports| =>
      if i < |uids| then OwnerReturn(uids[i])
      else if i == |uids| then LoopbackReturn
      else Redirect(dports[i - |uids| - 1], proxyPort))
  }

  function Owners(uids: seq<int>): seq<Rule> {
    seq(|uids|, i requires 0 <= i < |uids| => OwnerReturn(uids[i]))
  }

  function Redirects(dports: seq<string>, proxyPort: int): seq<Rule> {
    seq(|dports|, i requires 0 <= i < |dports| => Redirect(dports[i], proxyPort))
  }

  lemma DesiredParts(uids: seq<int>, dports: seq<string>, proxyPort: int)
    ensures Desired(uids, dports, proxyPort) == Owners(uids) + [LoopbackReturn] + Redirects(dports, proxyPort)
  {
  }

  /** appendIfMissing on the chain: a probe that errs makes a present rule look missing. */
  function AddRule(chain: seq<Rule>, r: Rule, probeErrs: bool): seq<Rule> {
    if r in chain && !probeErrs then chain else chain + [r]
  }

  /** The chain after the rules, with one probe per rule. */
  function AddProbed(chain: seq<Rule>, rules: seq<Rule>, errs: seq<bool>): seq<Rule>
    requires |errs| == |rules|
  {
    if rules == [] then chain
    else
      var n := |rules| - 1;
      AddRule(AddProbed(chain, rules[..n], errs[..n]), rules[n], errs[n])
  }

  /** The chain after the rules when no probe errs. */
  function AddAll(chain: seq<Rule>, rules: seq<Rule>): seq<Rule> {
    if rules == [] then chain else AddRule(AddAll(chain, rules[..|rules| - 1]), rules[|rules| - 1], false)
  }

  /** Probes that err on a rule that is present. */
  function Duplicates(chain: seq<Rule>, rules: seq<Rule>, errs: seq<bool>): nat
    requires |errs| == |rules|
  {
    if rules == [] then 0
    else
      var n := |rules| - 1;
      Duplicates(chain, rules[..n], errs[..n]) + if errs[n] && rules[n] in chain + rules[..n] then 1 else 0
  }

  /** The chain in the nat table; `budget` commands succeed before the runner fails. */
  class NatChain {
    var rules: seq<Rule>
    var budget: nat

    constructor (budget: nat)
      ensures rules == [] && this.budget == budget
    {
      rules, this.budget := [], budget;
    }

    /** appendIfMissing: a -C probe, then -A if the probe misses. */
    method AppendIfMissing(r: Rule, probeErrs: bool) returns (ok: bool)
      modifies this
      ensures rules == if ok then AddRule(old(rules), r, probeErrs) else old(rules)
      ensures ok <==> (r in old(rules) && !probeErrs) || old(budget) > 0
      ensures budget == if rules != old(rules) then old(budget) - 1 else old(budget)
    {
      if r in rules && !probeErrs {
        return true;
      }
      if budget == 0 {
        return false;
      }
      budget := budget - 1;
      rules := rules + [r];
      return true;
    }

    /** One rule of the install that began on `start`. */
    method InstallNext(r: Rule, probeErrs: bool, ghost start: seq<Rule>,
                           ghost desired: seq<Rule>, ghost errs: seq<bool>, ghost k: nat)
      returns (ok: bool)
      requires k < |desired| == |errs| && desired[k] == r && errs[k] == probeErrs
      requires rules == AddProbed(start, desired[..k], errs[..k])
      modifies this
      ensures var n := if ok then k + 1 else k; rules == AddProbed(start, desired[..n], errs[..n])
      ensures !ok ==> budget == 0
    {
      AddNext(start, desired, errs, k);
      ok := AppendIfMissing(r, probeErrs);
    }

    /** installRules: stops at the first failure, leaving the rules added so far. */
    method InstallRules(uids: seq<int>, dports: seq<string>, proxyPort: int, errs: seq<bool>)
      returns (ok: bool, ghost steps: nat)
      requires |errs| == |Desired(uids, dports, proxyPort)|
      modifies this
      ensures steps <= |errs|
              && rules == AddProbed(old(rules), Desired(uids, dports, proxyPort)[..steps], errs[..steps])
      ensures ok ==> rules == AddProbed(old(rules), Desired(uids, dports, proxyPort), errs)
      ensures !ok ==> budget == 0 && steps < |errs|
    {
      ghost var desired := Desired(uids, dports, proxyPort);
      steps := 0;
      for i := 0 to |uids|
        invariant steps == i && rules == AddProbed(old(rules), desired[..steps], errs[..steps])
      {
        ok := InstallNext(OwnerReturn(uids[i]), errs[i], old(rules), desired, errs, steps);
        if !ok {
          return;
        }
        steps := steps + 1;
      }
      ok := InstallNext(LoopbackReturn, errs[|uids|], old(rules), desired, errs, steps);
      if !ok {
        return;
      }
      steps := steps + 1;
      for i := 0 to |dports|
        invariant steps == |uids| + 1 + i && rules == AddProbed(old(rules), desired[..steps], errs[..steps])
      {
        ok := InstallNext(Redirect(dports[i], proxyPort), errs[|uids| + 1 + i], old(rules), desired, errs, steps);
        if !ok {
          return;
        }
        steps := steps + 1;
      }
      assert desired[..steps] == desired && errs[..steps] == errs;
      ok := true;
    }
  }

  lemma AddNext(chain: seq<Rule>, rules: seq<Rule>, errs: seq<bool>, k: nat)
    requires k < |rules| == |errs|
    ensures AddProbed(chain, rules[..k + 1], errs[..k + 1]) ==
            AddRule(AddProbed(chain, rules[..k], errs[..k]), rules[k], errs[k])
  {
    assert rules[..k + 1][..k] == rules[..k] && errs[..k + 1][..k] == errs[..k];
  }

  lemma {:induction false} AddProbedContains(chain: seq<Rule>, rules: seq<Rule>, errs: seq<bool>)
    requires |errs| == |rules|
    ensures forall r :: r in AddProbed(chain, rules, errs) <==> r in chain + rules
    decreases |rules|
  {
    if rules != [] {
      var n := |rules| - 1;
      AddProbedContains(chain, rules[..n], errs[..n]);
      assert chain + rules == chain + rules[..n] + [rules[n]];
    }
  }

  /** Each probe that errs on a present rule adds one duplicate; without any the chain is the clean one. */
  lemma {:induction false} ProbedChainLength(chain: seq<Rule>, rules: seq<Rule>, errs: seq<bool>)
    requires |errs| == |rules|
    ensures |AddProbed(chain, rules, errs)| == |AddAll(chain, rules)| + Duplicates(chain, rules, errs)
    ensures Duplicates(chain, rules, errs) == 0 ==> AddProbed(chain, rules, errs) == AddAll(chain, rules)
    decreases |rules|
  {
    if rules != [] {
      var n := |rules| - 1;
      ProbedChainLength(chain, rules[..n], errs[..n]);
      AddProbedContains(chain, rules[..n], errs[..n]);
      AddAllContains(chain, rules[..n]);
    }
  }

  /** An install leaves the clean chain if and only if no probe errs on a present rule. */
  lemma ProbedChainIsCleanIff(chain: seq<Rule>, rules: seq<Rule>, errs: seq<bool>)
    requires |errs| == |rules|
    ensures AddProbed(chain, rules, errs) == AddAll(chain, rules) <==> Duplicates(chain, rules, errs) == 0
  {
    ProbedChainLength(chain, rules, errs);
  }

  /** A re-run whose probe errs on an installed rule doubles that rule. */
  lemma ProbeErrorDoublesRule(r: Rule)
    ensures AddProbed([r], [r], [true]) == [r, r] && AddAll([r], [r]) == [r]
  {
    assert [r][..0] == [] && [true][..0] == [];
    assert AddProbed([r], [], []) == [r] && AddAll([r], []) == [r];
  }

  lemma {:induction false} AddAllContains(chain: seq<Rule>, rules: seq<Rule>)
    ensures forall r :: r in AddAll(chain, rules) <==> r in chain || r in rules
    decreases |rules|
  {
    if rules != [] {
      AddAllContains(chain, rules[..|rules| - 1]);
      assert rules == rules[..|rules| - 1] + [rules[|rules| - 1]];
    }
  }

  /** Rules already present are not added again. */
  lemma {:induction false} AddPresent(chain: seq<Rule>, rules: seq<Rule>)
    requires forall r :: r in rules ==> r in chain
    ensures AddAll(chain, rules) == chain
    decreases |rules|
  {
    if rules != [] {
      AddPresent(chain, rules[..|rules| - 1]);
    }
  }

  lemma {:induction false} AddConcat(chain: seq<Rule>, a: seq<Rule>, b: seq<Rule>)
    ensures AddAll(chain, a + b) == AddAll(AddAll(chain, a), b)
    decreases |b|
  {
    if b == [] {
      assert a + b == a;
    } else {
      var init := b[..|b| - 1];
      assert (a + b)[..|a + b| - 1] == a + init;
      AddConcat(chain, a, init);
    }
  }

  /** Re-running after an interruption at any point yields the chain of an uninterrupted run. */
  lemma InterruptedInstallResumes(chain: seq<Rule>, desired: seq<Rule>, k: nat)
    requires k <= |desired|
    ensures AddAll(AddAll(chain, desired[..k]), desired) == AddAll(chain, desired)
  {
    var part := AddAll(chain, desired[..k]);
    AddAllContains(chain, desired[..k]);
    AddPresent(part, desired[..k]);
    assert desired == desired[..k] + desired[k..];
    AddConcat(part, desired[..k], desired[k..]);
    AddConcat(chain, desired[..k], desired[k..]);
  }

  /** Once installed, further runs change nothing. */
  lemma InstallIdempotent(chain: seq<Rule>, desired: seq<Rule>)
    ensures AddAll(AddAll(chain, desired), desired) == AddAll(chain, desired)
  {
    assert desired[..|desired|] == desired;
    InterruptedInstallResumes(chain, desired, |desired|);
  }

  // ------------------------------------------------------ evaluation

  predicate Matches(r: Rule, p: Packet) {
    match r
    case OwnerReturn(uid) => p.uid == uid
    case LoopbackReturn => p.loopback
    case Redirect(dport, _) => p.dport == dport
  }

  function VerdictOf(r: Rule): Verdict {
    if r.Redirect? then RedirectTo(r.toPort) else Return
  }

  /** First-match evaluation of a chain. */
  function Evaluate(chain: seq<Rule>, p: Packet): Verdict {
    if chain == [] then NoMatch
    else if Matches(chain[0], p) then VerdictOf(chain[0])
    else Evaluate(chain[1..], p)
  }

  /** What the chain is for: bypass UIDs and loopback return, listed ports go to the proxy. */
  function Spec(uids: seq<int>, dports: seq<string>, proxyPort: int, p: Packet): Verdict {
    if p.uid in uids || p.loopback then Return
    else if p.dport in dports then RedirectTo(proxyPort)
    else NoMatch
  }

  lemma {:induction false} EvaluateAppend(a: seq<Rule>, b: seq<Rule>, p: Packet)
    ensures Evaluate(a + b, p) == if Evaluate(a, p) == NoMatch then Evaluate(b, p) else Evaluate(a, p)
    decreases |a|
  {
    if a == [] {
      assert a + b == b;
    } else {
      assert (a + b)[1..] == a[1..] + b;
      EvaluateAppend(a[1..], b, p);
    }
  }

  /** A rule that occurs in the chain is never the deciding one when added again. */
  lemma {:induction false} PresentRuleDecides(chain: seq<Rule>, r: Rule, p: Packet)
    requires r in chain && Matches(r, p)
    ensures Evaluate(chain, p) != NoMatch
    decreases |chain|
  {
    if !Matches(chain[0], p) {
      PresentRuleDecides(chain[1..], r, p);
    }
  }

  /** Neither skipping a present rule nor adding it again changes what the chain does. */
  lemma {:induction false} EvaluateAddProbed(chain: seq<Rule>, rules: seq<Rule>, errs: seq<bool>, p: Packet)
    requires |errs| == |rules|
    ensures Evaluate(AddProbed(chain, rules, errs), p) == Evaluate(chain + rules, p)
    decreases |rules|
  {
    if rules == [] {
      assert chain + rules == chain;
    } else {
      var n := |rules| - 1;
      var init, last, before := rules[..n], rules[n], AddProbed(chain, rules[..n], errs[..n]);
      EvaluateAddProbed(chain, init, errs[..n], p);
      assert chain + rules == (chain + init) + [last];
      EvaluateAppend(chain + init, [last], p);
      EvaluateAppend(before, [last], p);
      if last in before && Matches(last, p) {
        PresentRuleDecides(before, last, p);
      }
    }
  }

  lemma {:induction false} EvaluateOwners(uids: seq<int>, p: Packet)
    ensures Evaluate(Owners(uids), p)
            == if p.uid in uids then Return else NoMatch
    decreases |uids|
  {
    if uids != [] {
      EvaluateOwners(uids[1..], p);
      assert Owners(uids)[1..] == Owners(uids[1..]);
      assert uids == [uids[0]] + uids[1..];
    }
  }

  lemma {:induction false} EvaluateRedirects(dports: seq<string>, proxyPort: int, p: Packet)
    ensures Evaluate(Redirects(dports, proxyPort), p)
            == if p.dport in dports then RedirectTo(proxyPort) else NoMatch
    decreases |dports|
  {
    if dports != [] {
      EvaluateRedirects(dports[1..], proxyPort, p);
      assert Redirects(dports, proxyPort)[1..] == Redirects(dports[1..], proxyPort);
      assert dports == [dports[0]] + dports[1..];
    }
  }

  /** The desired rules decide every packet as specified. */
  lemma DesiredMeetsSpec(uids: seq<int>, dports: seq<string>, proxyPort: int, p: Packet)
    ensures Evaluate(Desired(uids, dports, proxyPort), p) == Spec(uids, dports, proxyPort, p)
  {
    DesiredParts(uids, dports, proxyPort);
    EvaluateOwners(uids, p);
    EvaluateRedirects(dports, proxyPort, p);
    EvaluateAppend(Owners(uids), [LoopbackReturn], p);
    EvaluateAppend(Owners(uids) + [LoopbackReturn], Redirects(dports, proxyPort), p);
    assert Evaluate([LoopbackReturn], p) == if p.loopback then Return else NoMatch;
  }

  /**
   After an install interrupted at any point and a complete re-run, every packet gets its
   specified verdict, whichever probes err in either of them.
   */
  lemma InstalledChainMeetsSpec(uids: seq<int>, dports: seq<string>, proxyPort: int, k: nat,
                                errs: seq<bool>, errs': seq<bool>, p: Packet)
    requires k == |errs| <= |errs'| == |Desired(uids, dports, proxyPort)|
    ensures var desired := Desired(uids, dports, proxyPort);
            Evaluate(AddProbed(AddProbed([], desired[..k], errs), desired, errs'), p)
            == Spec(uids, dports, proxyPort, p)
  {
    RerunDecidesAlike(Desired(uids, dports, proxyPort), k, errs, errs', p);
    DesiredMeetsSpec(uids, dports, proxyPort, p);
  }

  lemma RerunDecidesAlike(desired: seq<Rule>, k: nat, errs: seq<bool>, errs': seq<bool>, p: Packet)
    requires k == |errs| <= |errs'| == |desired|
    ensures Evaluate(AddProbed(AddProbed([], desired[..k], errs), desired, errs'), p) == Evaluate(desired, p)
  {
    var part := AddProbed([], desired[..k], errs);
    EvaluateAddProbed(part, desired, errs', p);
    EvaluateAddProbed([], desired[..k], errs, p);
    assert [] + desired[..k] == desired[..k];
    EvaluateAppend(part, desired, p);
    PrefixDecides(desired, k, p);
  }

  lemma PrefixDecides(rules: seq<Rule>, k: nat, p: Packet)
    requires k <= |rules|
    ensures Evaluate(rules[..k], p) != NoMatch ==> Evaluate(rules, p) == Evaluate(rules[..k], p)
  {
    assert rules == rules[..k] + rules[k..];
    EvaluateAppend(rules[..k], rules[k..], p);
  }

  // ------------------------------------------------------ the bypass list

  /** unicode.IsSpace. */
  predicate IsSpace(c: char) {
    || '\t' <= c <= '\r' || c == ' ' || c == '\U{85}' || c == '\U{a0}' || c == '\U{1680}'
    || '\U{2000}' <= c <= '\U{200a}' || c == '\U{2028}' || c == '\U{2029}' || c == '\U{202f}'
    || c == '\U{205f}' || c == '\U{3000}'
  }

  predicate Blank(s: string) {
    forall c :: c in s ==> IsSpace(c)
  }

  /** strings.TrimSpace. */
  function Trim(s: string): (r: string)
    ensures r == "" <==> Blank(s)
    decreases |s|
  {
    if s == "" then ""
    else if IsSpace(s[0]) then assert s == [s[0]] + s[1..]; Trim(s[1..])
    else if IsSpace(s[|s| - 1]) then assert s == s[..|s| - 1] + [s[|s| - 1]] && s[0] in s[..|s| - 1]; Trim(s[..|s| - 1])
    else s
  }

  /** strings.Split(s, ","). */
  function SplitCommas(s: string): (r: seq<string>)
    ensures r != []
    decreases |s|
  {
    if s == "" then [""]
    else
      var rest := SplitCommas(s[1..]);
      if s[0] == ',' then [""] + rest else [[s[0]] + rest[0]] + rest[1..]
  }

  /** Joining with commas. */
  function JoinCommas(fields: seq<string>): string {
    if fields == [] then "" else if |fields| == 1 then fields[0] else fields[0] + "," + JoinCommas(fields[1..])
  }

  /** Splitting cuts at every comma and nowhere else. */
  lemma {:induction false} SplitCommasIff(s: string)
    ensures JoinCommas(SplitCommas(s)) == s
    ensures forall f :: f in SplitCommas(s) ==> ',' !in f
    decreases |s|
  {
    if s != "" {
      var rest, all := SplitCommas(s[1..]), SplitCommas(s);
      SplitCommasIff(s[1..]);
      if s[0] == ',' {
        assert all == [""] + rest && all[1..] == rest;
        assert "" + "," + s[1..] == s;
      } else {
        assert all == [[s[0]] + rest[0]] + rest[1..] && all[1..] == rest[1..];
        assert rest[0] in rest;
        HeadJoins(s[0], rest);
        assert [s[0]] + s[1..] == s;
      }
    }
  }

  lemma HeadJoins(c: char, fields: seq<string>)
    requires fields != []
    ensures JoinCommas([[c] + fields[0]] + fields[1..]) == [c] + JoinCommas(fields)
  {
    var all := [[c] + fields[0]] + fields[1..];
    assert all[1..] == fields[1..];
    if |fields| > 1 {
      assert [c] + fields[0] + "," + JoinCommas(fields[1..]) == [c] + (fields[0] + "," + JoinCommas(fields[1..]));
    }
  }

  /** Trimming removes white space at both ends and nothing else. */
  lemma {:induction false} TrimIff(s: string) returns (before: string, after: string)
    ensures s == before + Trim(s) + after && Blank(before) && Blank(after)
    ensures Trim(s) != "" ==> !IsSpace(Trim(s)[0]) && !IsSpace(Trim(s)[|Trim(s)| - 1])
    decreases |s|
  {
    if s == "" {
      before, after := "", "";
    } else if IsSpace(s[0]) {
      var rest := s[1..];
      before, after := TrimIff(rest);
      assert Trim(s) == Trim(rest);
      TrimLeft(s, before, Trim(rest), after);
      before := [s[0]] + before;
    } else if IsSpace(s[|s| - 1]) {
      var rest := s[..|s| - 1];
      before, after := TrimIff(rest);
      assert Trim(s) == Trim(rest);
      TrimRight(s, before, Trim(rest), after);
      after := after + [s[|s| - 1]];
    } else {
      before, after := "", "";
      assert "" + s + "" == s;
    }
  }

  lemma TrimLeft(s: string, before: string, middle: string, after: string)
    requires s != "" && IsSpace(s[0]) && Blank(before) && s[1..] == before + middle + after
    ensures s == ([s[0]] + before) + middle + after && Blank([s[0]] + before)
  {
    assert s == [s[0]] + s[1..];
  }

  lemma TrimRight(s: string, before: string, middle: string, after: string)
    requires s != "" && IsSpace(s[|s| - 1]) && Blank(after) && s[..|s| - 1] == before + middle + after
    ensures s == before + middle + (after + [s[|s| - 1]]) && Blank(after + [s[|s| - 1]])
  {
    assert s == s[..|s| - 1] + [s[|s| - 1]];
  }

  /** The non-blank fields, trimmed, in order. */
  function Entries(fields: seq<string>): seq<string> {
    if fields == [] then []
    else
      var init, last := fields[..|fields| - 1], fields[|fields| - 1];
      Entries(init) + if Blank(last) then [] else [Trim(last)]
  }

  /** Every entry is an integer, and no two are equal. */
  ghost predicate GoodEntries(entries: seq<string>, atoi: string -> Option<int>) {
    && (forall i :: 0 <= i < |entries| ==> atoi(entries[i]).Some?)
    && (forall i, j :: 0 <= i < j < |entries| ==> atoi(entries[i]) != atoi(entries[j]))
  }

  /** `uids` are the integers of the entries, in order. */
  ghost predicate UidsOf(entries: seq<string>, atoi: string -> Option<int>, uids: seq<int>) {
    |uids| == |entries| && forall i :: 0 <= i < |entries| ==> atoi(entries[i]) == Some(uids[i])
  }

  lemma GoodNext(entries: seq<string>, e: string, atoi: string -> Option<int>, uids: seq<int>)
    requires UidsOf(entries, atoi, uids) && GoodEntries(entries, atoi)
    ensures GoodEntries(entries + [e], atoi) <==> atoi(e).Some? && atoi(e).value !in uids
    ensures atoi(e).Some? ==> UidsOf(entries + [e], atoi, uids + [atoi(e).value])
  {
    var all := entries + [e];
    assert all[|entries|] == e && forall i :: 0 <= i < |entries| ==> all[i] == entries[i];
    if atoi(e).Some? && atoi(e).value in uids {
      var i :| 0 <= i < |uids| && uids[i] == atoi(e).value;
      assert atoi(all[i]) == atoi(all[|entries|]);
    }
  }

  lemma BadStaysBad(entries: seq<string>, e: string, atoi: string -> Option<int>)
    requires GoodEntries(entries + [e], atoi)
    ensures GoodEntries(entries, atoi)
  {
    var all := entries + [e];
    assert forall i :: 0 <= i < |entries| ==> all[i] == entries[i];
  }

  /**
   A list is accepted exactly when every entry is an integer and no two are equal, and then UID i
   is the integer of entry i.
   */
  lemma {:induction false} ParsedIff(fields: seq<string>, atoi: string -> Option<int>)
    ensures Parsed(fields, atoi).Some? <==> GoodEntries(Entries(fields), atoi)
    ensures Parsed(fields, atoi).Some? ==> UidsOf(Entries(fields), atoi, Parsed(fields, atoi).value)
    decreases |fields|
  {
    if fields != [] {
      var init, last := fields[..|fields| - 1], fields[|fields| - 1];
      ParsedIff(init, atoi);
      if Blank(last) {
        assert Entries(fields) == Entries(init) && Parsed(fields, atoi) == Parsed(init, atoi);
      } else {
        assert Entries(fields) == Entries(init) + [Trim(last)];
        if Parsed(init, atoi).Some? {
          GoodNext(Entries(init), Trim(last), atoi, Parsed(init, atoi).value);
        } else if GoodEntries(Entries(fields), atoi) {
          BadStaysBad(Entries(init), Trim(last), atoi);
        }
      }
    }
  }

  /** parseBypassUIDs; `atoi` is strconv.Atoi. */
  method ParseBypassUIDs(csv: string, atoi: string -> Option<int>) returns (uids: Option<seq<int>>)
    ensures uids == if Blank(csv) then None else Parsed(SplitCommas(Trim(csv)), atoi)
  {
    var value := Trim(csv);
    if value == "" {
      return None;
    }
    var fields := SplitCommas(value);
    var seen: set<int>, out: seq<int> := {}, [];
    for i := 0 to |fields|
      invariant Parsed(fields[..i], atoi) == Some(out)
      invariant seen == set u | u in out
    {
      ParsedNext(fields, i, atoi);
      var raw := Trim(fields[i]);
      if raw == "" {
        continue;
      }
      var uid := atoi(raw);
      if uid.None? || uid.value in seen {
        RejectionPersists(fields, i + 1, atoi);
        return None;
      }
      seen := seen + {uid.value};
      out := out + [uid.value];
    }
    assert fields[..|fields|] == fields;
    return Some(out);
  }

  /** The UIDs of the non-blank fields in order; None on a bad integer or a repeated UID. */
  function Parsed(fields: seq<string>, atoi: string -> Option<int>): Option<seq<int>> {
    if fields == [] then Some([])
    else
      var rest, raw := Parsed(fields[..|fields| - 1], atoi), Trim(fields[|fields| - 1]);
      if rest.None? || raw == "" then rest
      else if atoi(raw).None? || atoi(raw).value in rest.value then None
      else Some(rest.value + [atoi(raw).value])
  }

  lemma ParsedNext(fields: seq<string>, i: nat, atoi: string -> Option<int>)
    requires i < |fields| && Parsed(fields[..i], atoi).Some?
    ensures var before, raw := Parsed(fields[..i], atoi), Trim(fields[i]);
            Parsed(fields[..i + 1], atoi) ==
            if raw == "" then before
            else if atoi(raw).None? || atoi(raw).value in before.value then None
            else Some(before.value + [atoi(raw).value])
  {
    var prefix := fields[..i + 1];
    assert prefix[..|prefix| - 1] == fields[..i] && prefix[|prefix| - 1] == fields[i];
  }

  lemma {:induction false} RejectionPersists(fields: seq<string>, i: nat, atoi: string -> Option<int>)
    requires i <= |fields| && Parsed(fields[..i], atoi).None?
    ensures Parsed(fields, atoi).None?
    decreases |fields| - i
  {
    if i < |fields| {
      assert fields[..i + 1][..i] == fields[..i];
      RejectionPersists(fields, i + 1, atoi);
    } else {
      assert fields[..i] == fields;
    }
  }

  /** An accepted list has no repeats, and it is empty exactly when every field is blank. */
  lemma {:induction false} AcceptedBypassList(fields: seq<string>, atoi: string -> Option<int>)
    ensures Parsed(fields, atoi).Some? ==> Distinct(Parsed(fields, atoi).value)
    ensures Parsed(fields, atoi) == Some([]) <==> forall f :: f in fields ==> Blank(f)
    decreases |fields|
  {
    if fields != [] {
      var init, last := fields[..|fields| - 1], fields[|fields| - 1];
      AcceptedBypassList(init, atoi);
      assert fields == init + [last];
    }
  }

  /** So a lone comma is accepted as an empty bypass list, although an empty list is meant to be rejected. */
  lemma CommaIsAccepted(atoi: string -> Option<int>)
    ensures !Blank(",") && Parsed(SplitCommas(Trim(",")), atoi) == Some([])
  {
    var s := ",";
    assert s[0] in s && !IsSpace(s[0]);
    assert s[1..] == "" && SplitCommas(s) == ["", ""];
    AcceptedBypassList(["", ""], atoi);
  }
}
