/**
 Broker-issued credentials of a run (internal/controller/broker_credentials.go): the status
 entries, the owned Secret, and the fast path that avoids calling the broker again. Requirement
 names are taken in the sorted order the source puts them in. Times are nanoseconds.
 */
module BrokerCredentials {
  import opened Wrappers

  const LEASE_RENEW_SKEW := 30_000_000_000

  datatype Lease = Lease(credential: string, provider: string, id: string, expiresAt: Option<int>)
  datatype CredentialStatus = CredentialStatus(name: string, provider: string)

  datatype IssueResult =
    | Issued(value: Bytes, provider: string, leaseId: string, expiresAt: int)
    | Denied
    | Unavailable

  /** What the cached client returns for the run's status: the committed one or an older one. */
  datatype StatusRead = Newest | Older(leases: seq<Lease>, creds: seq<CredentialStatus>)

  /** What it returns for the Secret, which may lag behind the server in each case. */
  datatype SecretRead = Absent | Unreadable | Found(data: map<string, Bytes>)

  /** Conflict is an update of a Secret that has changed; a create that finds one already there has Failed. */
  datatype SecretWrite = Written | Conflict | Failed

  /** The API's answers to one reconcile: its two reads, the fast path's prune, and the upsert or delete. */
  datatype Api = Api(status: StatusRead, read: SecretRead, prune: SecretWrite, upsert: SecretWrite)

  datatype Outcome = Ready | Waiting | Fatal | Error

  function Names(reqs: seq<string>): set<string> {
    set c | c in reqs
  }

  /** The last lease of a credential: later entries overwrite earlier ones in the lookup map. */
  function LastLease(leases: seq<Lease>, name: string): (l: Option<Lease>)
    ensures l.Some? ==> l.value in leases && l.value.credential == name
    ensures l.None? ==> forall x :: x in leases ==> x.credential != name
  {
    if leases == [] then None
    else if leases[|leases| - 1].credential == name then Some(leases[|leases| - 1])
    else LastLease(leases[..|leases| - 1], name)
  }

  function LastStatus(creds: seq<CredentialStatus>, name: string): (s: Option<CredentialStatus>)
    ensures s.Some? ==> s.value in creds && s.value.name == name
    ensures s.None? ==> forall x :: x in creds ==> x.name != name
  {
    if creds == [] then None
    else if creds[|creds| - 1].name == name then Some(creds[|creds| - 1])
    else LastStatus(creds[..|creds| - 1], name)
  }

  /** The entry after which the name does not occur again is the one looked up. */
  lemma {:induction false} LastLeaseWins(leases: seq<Lease>, i: nat)
    requires i < |leases| && forall j :: i < j < |leases| ==> leases[j].credential != leases[i].credential
    ensures LastLease(leases, leases[i].credential) == Some(leases[i])
    decreases |leases|
  {
    if i < |leases| - 1 {
      LastLeaseWins(leases[..|leases| - 1], i);
    }
  }

  lemma {:induction false} LastStatusWins(creds: seq<CredentialStatus>, i: nat)
    requires i < |creds| && forall j :: i < j < |creds| ==> creds[j].name != creds[i].name
    ensures LastStatus(creds, creds[i].name) == Some(creds[i])
    decreases |creds|
  {
    if i < |creds| - 1 {
      LastStatusWins(creds[..|creds| - 1], i);
    }
  }

  predicate LeaseFresh(l: Lease, now: int) {
    l.expiresAt.Some? ==> now + LEASE_RENEW_SKEW <= l.expiresAt.value
  }

  /** One requirement has a fresh lease and an entry in the status. */
  predicate CoveredBy(leases: seq<Lease>, creds: seq<CredentialStatus>, name: string, now: int) {
    && LastLease(leases, name).Some? && LeaseFresh(LastLease(leases, name).value, now)
    && LastStatus(creds, name).Some?
  }

  predicate StatusCovers(leases: seq<Lease>, creds: seq<CredentialStatus>, reqs: seq<string>, now: int) {
    && |reqs| <= |leases| && |reqs| <= |creds|
    && forall c :: c in reqs ==> CoveredBy(leases, creds, c, now)
  }

  /** In numbers: a lease that expires less than 30 seconds from now does not count. */
  lemma StatusCoversIff(leases: seq<Lease>, creds: seq<CredentialStatus>, reqs: seq<string>, now: int)
    ensures StatusCovers(leases, creds, reqs, now) <==>
            && |reqs| <= |leases| && |reqs| <= |creds|
            && forall c :: c in reqs ==>
                 match LastLease(leases, c)
                 case None => false
                 case Some(l) =>
                   LastStatus(creds, c).Some?
                   && (l.expiresAt.Some? ==> now + 30_000_000_000 <= l.expiresAt.value)
  {
    assert forall c :: c in reqs ==> (CoveredBy(leases, creds, c, now) <==>
      LastLease(leases, c).Some? && LeaseFresh(LastLease(leases, c).value, now) && LastStatus(creds, c).Some?);
  }

  /** A lease without expiry never forces an Issue: time alone does not end the coverage. */
  lemma NoExpiryStaysCovered(leases: seq<Lease>, creds: seq<CredentialStatus>, reqs: seq<string>, now: int, later: int)
    requires StatusCovers(leases, creds, reqs, now)
    requires forall c :: c in reqs && LastLease(leases, c).Some? ==> LastLease(leases, c).value.expiresAt == None
    ensures StatusCovers(leases, creds, reqs, later)
  {
    StatusCoversIff(leases, creds, reqs, now);
    StatusCoversIff(leases, creds, reqs, later);
  }

  /** The Secret that was read has a value for every requirement. */
  predicate ReadCovers(read: SecretRead, reqs: seq<string>) {
    read.Found? && forall c :: c in reqs ==> c in read.data && read.data[c] != []
  }

  /** What the fast path leaves in the Secret: extras are dropped when there are too many keys. */
  function Prune(data: map<string, Bytes>, reqs: seq<string>): map<string, Bytes>
    requires forall c :: c in reqs ==> c in data
  {
    if |data| > |reqs| then map c | c in Names(reqs) :: data[c] else data
  }

  lemma {:induction false} DistinctCount(reqs: seq<string>)
    ensures |Names(reqs)| <= |reqs|
    ensures Distinct(reqs) ==> |Names(reqs)| == |reqs|
    decreases |reqs|
  {
    if reqs != [] {
      var init, last := reqs[..|reqs| - 1], reqs[|reqs| - 1];
      DistinctCount(init);
      assert reqs == init + [last];
      assert Names(reqs) == Names(init) + {last};
      if last in init {
        assert Names(reqs) == Names(init);
      }
    }
  }

  lemma EqualBySize(small: set<string>, big: set<string>)
    requires small <= big && |big| <= |small|
    ensures small == big
  {
    assert big == small + (big - small);
    assert |big| == |small| + |big - small|;
  }

  /** Distinct requirement names: the length test finds every extra key, and no value changes. */
  lemma PruneLeavesExactlyRequired(data: map<string, Bytes>, reqs: seq<string>)
    requires forall c :: c in reqs ==> c in data
    requires Distinct(reqs)
    ensures Prune(data, reqs).Keys == Names(reqs)
    ensures forall c :: c in reqs ==> Prune(data, reqs)[c] == data[c]
  {
    DistinctCount(reqs);
    if |data| <= |reqs| {
      assert |data.Keys| == |data|;
      EqualBySize(Names(reqs), data.Keys);
    }
  }

  /** In general extras survive exactly when repeated names hide them from the length test. */
  lemma PruneMissesExtrasIff(data: map<string, Bytes>, reqs: seq<string>)
    requires forall c :: c in reqs ==> c in data
    ensures Prune(data, reqs).Keys != Names(reqs) <==> |Names(reqs)| < |data| <= |reqs|
  {
    assert |data.Keys| == |data|;
    if |data| <= |reqs| && |data| <= |Names(reqs)| {
      EqualBySize(Names(reqs), data.Keys);
    }
  }

  lemma RepeatedNameHidesExtra(v: Bytes)
    ensures var data: map<string, Bytes> := map["A" := v, "EXTRA" := v];
            Prune(data, ["A", "A"]).Keys == {"A", "EXTRA"} && Names(["A", "A"]) == {"A"}
  {
    var data: map<string, Bytes> := map["A" := v, "EXTRA" := v];
    assert data.Keys == {"A", "EXTRA"};
    assert |data| == |data.Keys| == 2;
  }

  /** The run status, the owned Secret and the log of Issue calls. */
  datatype RunState = RunState(
    leases: seq<Lease>, creds: seq<CredentialStatus>, secret: Option<map<string, Bytes>>, issueCalls: seq<string>)

  /** The leases that a reconcile sees in the status. */
  function SeenLeases(st: RunState, status: StatusRead): seq<Lease> {
    if status.Newest? then st.leases else status.leases
  }

  function SeenCreds(st: RunState, status: StatusRead): seq<CredentialStatus> {
    if status.Newest? then st.creds else status.creds
  }

  /** The fast path succeeds: status and Secret as read cover everything, and a prune that is due is written. */
  predicate FastPath(st: RunState, reqs: seq<string>, now: int, api: Api) {
    && StatusCovers(SeenLeases(st, api.status), SeenCreds(st, api.status), reqs, now)
    && ReadCovers(api.read, reqs)
    && (|api.read.data| > |reqs| ==> api.prune.Written?)
  }

  // ------------------------------------------------------ the Issue cycle

  /** The position of the first requirement that the broker does not issue. */
  function FirstFailure(reqs: seq<string>, broker: string -> IssueResult): (n: nat)
    ensures n <= |reqs| && (n < |reqs| ==> !broker(reqs[n]).Issued?)
    ensures forall i :: 0 <= i < n ==> broker(reqs[i]).Issued?
  {
    if reqs == [] || !broker(reqs[0]).Issued? then 0 else 1 + FirstFailure(reqs[1..], broker)
  }

  predicate IssuesAll(reqs: seq<string>, broker: string -> IssueResult) {
    forall c :: c in reqs ==> broker(c).Issued?
  }

  lemma IssuesAllIff(reqs: seq<string>, broker: string -> IssueResult)
    ensures IssuesAll(reqs, broker) <==> FirstFailure(reqs, broker) == |reqs|
  {
    var n := FirstFailure(reqs, broker);
    if n < |reqs| {
      assert reqs[n] in reqs;
    }
  }

  /** The Issue calls of one cycle: up to and including the first failure. */
  function Calls(reqs: seq<string>, broker: string -> IssueResult): seq<string> {
    var n := FirstFailure(reqs, broker);
    if n < |reqs| then reqs[..n + 1] else reqs
  }

  function CycleOutcome(reqs: seq<string>, broker: string -> IssueResult): Outcome {
    var n := FirstFailure(reqs, broker);
    if n == |reqs| then Ready else if broker(reqs[n]).Denied? then Fatal else Waiting
  }

  /** The first requirement that the broker does not issue is number `n`. */
  predicate FirstRefusal(reqs: seq<string>, broker: string -> IssueResult, n: int) {
    0 <= n < |reqs| && !broker(reqs[n]).Issued? && forall i :: 0 <= i < n ==> broker(reqs[i]).Issued?
  }

  /** A cycle ends by the broker's answer to the first requirement that it does not issue. */
  lemma CycleOutcomeIff(reqs: seq<string>, broker: string -> IssueResult)
    ensures CycleOutcome(reqs, broker).Ready? <==> IssuesAll(reqs, broker)
    ensures CycleOutcome(reqs, broker).Fatal? <==> exists n :: FirstRefusal(reqs, broker, n) && broker(reqs[n]).Denied?
    ensures CycleOutcome(reqs, broker).Waiting? <==>
            exists n :: FirstRefusal(reqs, broker, n) && broker(reqs[n]).Unavailable?
    ensures IssuesAll(reqs, broker) ==> Calls(reqs, broker) == reqs
    ensures forall n :: FirstRefusal(reqs, broker, n) ==> Calls(reqs, broker) == reqs[..n + 1]
  {
    IssuesAllIff(reqs, broker);
    var m := FirstFailure(reqs, broker);
    assert m < |reqs| ==> FirstRefusal(reqs, broker, m);
    assert forall n :: FirstRefusal(reqs, broker, n) ==> n == m;
  }

  function LeaseOf(name: string, resp: IssueResult): Lease
    requires resp.Issued?
  {
    Lease(name, resp.provider, resp.leaseId, Some(resp.expiresAt))
  }

  /** The status is that of an Issue cycle answered by `broker`. */
  predicate Settled(leases: seq<Lease>, creds: seq<CredentialStatus>, reqs: seq<string>, broker: string -> IssueResult)
    requires IssuesAll(reqs, broker)
  {
    && |leases| == |creds| == |reqs|
    && forall i :: 0 <= i < |reqs| ==> leases[i] == LeaseOf(reqs[i], broker(reqs[i]))
                                       && creds[i] == CredentialStatus(reqs[i], broker(reqs[i]).provider)
  }

  /** The Secret carries the value that `broker` issued for every requirement. */
  predicate Carries(secret: Option<map<string, Bytes>>, reqs: seq<string>, broker: string -> IssueResult)
    requires IssuesAll(reqs, broker)
  {
    secret.Some? && forall c :: c in reqs ==> c in secret.value && secret.value[c] == broker(c).value
  }

  predicate ExactKeys(secret: Option<map<string, Bytes>>, reqs: seq<string>) {
    secret.Some? && secret.value.Keys == Names(reqs)
  }

  // ------------------------------------------------------ reconciliation

  /** The status of the fast path is the one it saw, in requirement order. */
  predicate Recorded(leases: seq<Lease>, creds: seq<CredentialStatus>, reqs: seq<string>,
                     leases': seq<Lease>, creds': seq<CredentialStatus>) {
    && |leases'| == |creds'| == |reqs|
    && forall i :: 0 <= i < |reqs| ==> Some(leases'[i]) == LastLease(leases, reqs[i])
                                       && Some(creds'[i]) == LastStatus(creds, reqs[i])
  }

  /** A status computed from an older one conflicts when it is written, and the committed one stays. */
  predicate Unwritten(st: RunState, api: Api, t: RunState) {
    api.status.Older? ==> t.leases == st.leases && t.creds == st.creds
  }

  /** What one reconcile does to `st`, in each of its cases. */
  predicate Reconciles(st: RunState, reqs: seq<string>, now: int, broker: string -> IssueResult, api: Api,
                       outcome: Outcome, t: RunState) {
    && Unwritten(st, api, t)
    && if reqs == [] then
         t.issueCalls == st.issueCalls && t.leases == st.leases
         && if api.read.Unreadable? || (api.read.Found? && !api.upsert.Written?) then outcome == Error && t == st
            else outcome == Ready && (api.status.Newest? ==> t.creds == [])
                 && t.secret == if api.read.Found? then None else st.secret
       else if FastPath(st, reqs, now, api) then
         outcome == Ready && t.issueCalls == st.issueCalls
         && t.secret == (if |api.read.data| > |reqs| then Some(Prune(api.read.data, reqs)) else st.secret)
         && (api.status.Newest? ==> Recorded(st.leases, st.creds, reqs, t.leases, t.creds))
       else
         && t.issueCalls == st.issueCalls + Calls(reqs, broker)
         && outcome == (if IssuesAll(reqs, broker) && api.upsert.Failed? then Error else CycleOutcome(reqs, broker))
         && if !outcome.Ready? then t == st.(issueCalls := t.issueCalls)
            else
              && IssuesAll(reqs, broker)
              && (api.status.Newest? ==> Settled(t.leases, t.creds, reqs, broker))
              && if api.upsert.Written? then Carries(t.secret, reqs, broker) && ExactKeys(t.secret, reqs)
                 else t.secret == st.secret
  }

  /** The Issue cycle after the requirements `reqs`, all of them issued. */
  predicate IssuedSoFar(reqs: seq<string>, broker: string -> IssueResult,
                        leases: seq<Lease>, creds: seq<CredentialStatus>, data: map<string, Bytes>) {
    && IssuesAll(reqs, broker) && Settled(leases, creds, reqs, broker)
    && Carries(Some(data), reqs, broker) && ExactKeys(Some(data), reqs)
  }

  lemma IssueNext(reqs: seq<string>, i: nat, broker: string -> IssueResult,
                  leases: seq<Lease>, creds: seq<CredentialStatus>, data: map<string, Bytes>)
    requires i < |reqs| && IssuedSoFar(reqs[..i], broker, leases, creds, data)
    ensures var c, resp := reqs[i], broker(reqs[i]);
            resp.Issued? ==> IssuedSoFar(reqs[..i + 1], broker, leases + [LeaseOf(c, resp)],
                                         creds + [CredentialStatus(c, resp.provider)], data[c := resp.value])
  {
    assert reqs[..i + 1] == reqs[..i] + [reqs[i]];
  }

  lemma FailureAt(reqs: seq<string>, i: nat, broker: string -> IssueResult)
    requires i < |reqs| && IssuesAll(reqs[..i], broker) && !broker(reqs[i]).Issued?
    ensures FirstFailure(reqs, broker) == i && !IssuesAll(reqs, broker)
    ensures Calls(reqs, broker) == reqs[..i + 1]
  {
    IssuesAllIff(reqs, broker);
  }

  lemma CallNext(calls: seq<string>, reqs: seq<string>, i: nat)
    requires i < |reqs|
    ensures calls + reqs[..i] + [reqs[i]] == calls + reqs[..i + 1]
  {
  }

  /** The run as the controller holds it. */
  class RunCredentials {
    var leases: seq<Lease>
    var creds: seq<CredentialStatus>
    var secret: Option<map<string, Bytes>>
    var issueCalls: seq<string>

    constructor ()
      ensures State() == RunState([], [], None, [])
    {
      leases, creds, secret, issueCalls := [], [], None, [];
    }

    function State(): RunState
      reads this
    {
      RunState(leases, creds, secret, issueCalls)
    }

    /** cachedBrokerCredentials on the status and the Secret that the cached client returns. */
    method CachedBrokerCredentials(reqs: seq<string>, now: int, api: Api)
      returns (found: bool, credStatus: seq<CredentialStatus>, issuedLeases: seq<Lease>)
      modifies this`secret
      ensures found <==> FastPath(old(State()), reqs, now, api)
      ensures secret == if found && |api.read.data| > |reqs| then Some(Prune(api.read.data, reqs)) else old(secret)
      ensures found ==> Recorded(SeenLeases(State(), api.status), SeenCreds(State(), api.status),
                                reqs, issuedLeases, credStatus)
    {
      found, credStatus, issuedLeases := false, [], [];
      var leases, creds := SeenLeases(State(), api.status), SeenCreds(State(), api.status);
      if |leases| < |reqs| || |creds| < |reqs| {
        return;
      }
      for i := 0 to |reqs|
        invariant |credStatus| == |issuedLeases| == i
        invariant forall j :: 0 <= j < i ==> LastLease(leases, reqs[j]) == Some(issuedLeases[j])
                                             && LeaseFresh(issuedLeases[j], now)
                                             && LastStatus(creds, reqs[j]) == Some(credStatus[j])
      {
        var lease := LastLease(leases, reqs[i]);
        if lease.None? || !LeaseFresh(lease.value, now) {
          assert reqs[i] in reqs;
          return;
        }
        var status := LastStatus(creds, reqs[i]);
        if status.None? {
          assert reqs[i] in reqs;
          return;
        }
        issuedLeases := issuedLeases + [lease.value];
        credStatus := credStatus + [status.value];
      }
      if !api.read.Found? {
        return;
      }
      var data := api.read.data;
      for i := 0 to |reqs|
        invariant forall j :: 0 <= j < i ==> reqs[j] in data && data[reqs[j]] != []
      {
        if reqs[i] !in data || |data[reqs[i]]| == 0 {
          assert reqs[i] in reqs;
          return;
        }
      }
      if |data| > |reqs| {
        if !api.prune.Written? {
          return;
        }
        secret := Some(map c | c in Names(reqs) :: data[c]);
      }
      found := true;
    }

    /** The Issue cycle: one call per requirement until one fails. */
    method IssueAll(reqs: seq<string>, broker: string -> IssueResult)
      returns (outcome: Outcome, data: map<string, Bytes>, credStatus: seq<CredentialStatus>, issuedLeases: seq<Lease>)
      modifies this`issueCalls
      ensures issueCalls == old(issueCalls) + Calls(reqs, broker) && outcome == CycleOutcome(reqs, broker)
      ensures outcome.Ready? <==> IssuesAll(reqs, broker)
      ensures outcome.Fatal? <==> exists n :: FirstRefusal(reqs, broker, n) && broker(reqs[n]).Denied?
      ensures outcome.Waiting? <==> exists n :: FirstRefusal(reqs, broker, n) && broker(reqs[n]).Unavailable?
      ensures outcome.Ready? ==> |issuedLeases| == |credStatus| == |reqs|
      ensures outcome.Ready? ==>
                forall i :: 0 <= i < |reqs| ==>
                  && broker(reqs[i]).Issued?
                  && issuedLeases[i].credential == credStatus[i].name == reqs[i]
                  && issuedLeases[i].provider == credStatus[i].provider == broker(reqs[i]).provider
                  && issuedLeases[i].id == broker(reqs[i]).leaseId
                  && issuedLeases[i].expiresAt == Some(broker(reqs[i]).expiresAt)
      ensures outcome.Ready? ==> Settled(issuedLeases, credStatus, reqs, broker)
                                 && Carries(Some(data), reqs, broker) && ExactKeys(Some(data), reqs)
    {
      CycleOutcomeIff(reqs, broker);
      data, credStatus, issuedLeases := map[], [], [];
      for i := 0 to |reqs|
        invariant issueCalls == old(issueCalls) + reqs[..i]
        invariant IssuedSoFar(reqs[..i], broker, issuedLeases, credStatus, data)
      {
        var c := reqs[i];
        CallNext(old(issueCalls), reqs, i);
        IssueNext(reqs, i, broker, issuedLeases, credStatus, data);
        issueCalls := issueCalls + [c];
        var resp := broker(c);
        if !resp.Issued? {
          FailureAt(reqs, i, broker);
          return if resp.Denied? then Fatal else Waiting, data, credStatus, issuedLeases;
        }
        data := data[c := resp.value];
        credStatus := credStatus + [CredentialStatus(c, resp.provider)];
        issuedLeases := issuedLeases + [LeaseOf(c, resp)];
      }
      assert reqs[..|reqs|] == reqs;
      IssuesAllIff(reqs, broker);
      outcome := Ready;
      assert forall i :: 0 <= i < |reqs| ==> reqs[i] in reqs;
    }

    /** ensureBrokerCredentials followed by the committed status update of reconcileCredentials. */
    method Reconcile(reqs: seq<string>, now: int, broker: string -> IssueResult, api: Api)
      returns (outcome: Outcome)
      modifies this
      ensures Reconciles(old(State()), reqs, now, broker, api, outcome, State())
    {
      if reqs == [] {
        if api.read.Unreadable? || (api.read.Found? && !api.upsert.Written?) {
          return Error;
        }
        if api.read.Found? {
          secret := None;
        }
        if api.status.Newest? {
          creds := [];
        }
        return Ready;
      }
      var found, credStatus, issuedLeases := CachedBrokerCredentials(reqs, now, api);
      if !found {
        var data;
        outcome, data, credStatus, issuedLeases := IssueAll(reqs, broker);
        if !outcome.Ready? {
          return;
        }
        if api.upsert.Failed? {
          return Error;
        }
        if api.upsert.Written? {
          secret := Some(data);
        }
      }
      if api.status.Newest? {
        leases, creds := issuedLeases, credStatus;
      }
      return Ready;
    }
  }

  /** How a reconcile with an Issue cycle ends, by the broker's answers and the upsert. */
  lemma ReconcileOutcomeIff(st: RunState, reqs: seq<string>, now: int, broker: string -> IssueResult, api: Api,
                            outcome: Outcome, t: RunState)
    requires reqs != [] && !FastPath(st, reqs, now, api) && Reconciles(st, reqs, now, broker, api, outcome, t)
    ensures outcome.Fatal? <==> exists n :: FirstRefusal(reqs, broker, n) && broker(reqs[n]).Denied?
    ensures outcome.Waiting? <==> exists n :: FirstRefusal(reqs, broker, n) && broker(reqs[n]).Unavailable?
    ensures outcome.Error? <==> IssuesAll(reqs, broker) && api.upsert.Failed?
  {
    CycleOutcomeIff(reqs, broker);
  }

  /** A Ready reconcile, and when the Secret then carries what the broker issued in it. */
  lemma ReadyCarriesIff(st: RunState, reqs: seq<string>, now: int, broker: string -> IssueResult, api: Api, t: RunState)
    requires reqs != [] && !FastPath(st, reqs, now, api)
    requires Reconciles(st, reqs, now, broker, api, Ready, t)
    ensures IssuesAll(reqs, broker)
    ensures Carries(t.secret, reqs, broker) <==> api.upsert.Written? || Carries(st.secret, reqs, broker)
    ensures ExactKeys(t.secret, reqs) <==> api.upsert.Written? || ExactKeys(st.secret, reqs)
  {
  }

  // ------------------------------------------------------ the fresh window

  /** `now` lies in the fresh window of every lease that `broker` issued: 30 seconds before it expires, or earlier. */
  predicate InWindow(reqs: seq<string>, broker: string -> IssueResult, now: int) {
    forall c :: c in reqs ==> broker(c).Issued? && now + 30_000_000_000 <= broker(c).expiresAt
  }

  /** All requirements are issued by `broker`, and the status is committed. */
  predicate StatusCommitted(st: RunState, reqs: seq<string>, broker: string -> IssueResult) {
    reqs != [] && Distinct(reqs) && IssuesAll(reqs, broker) && Settled(st.leases, st.creds, reqs, broker)
  }

  /** A committed status holds each requirement's own entries. */
  lemma CommittedEntries(st: RunState, reqs: seq<string>, broker: string -> IssueResult)
    requires StatusCommitted(st, reqs, broker)
    ensures forall i :: 0 <= i < |reqs| ==> LastLease(st.leases, reqs[i]) == Some(st.leases[i])
                                            && LastStatus(st.creds, reqs[i]) == Some(st.creds[i])
  {
    forall i | 0 <= i < |reqs|
      ensures LastLease(st.leases, reqs[i]) == Some(st.leases[i]) && LastStatus(st.creds, reqs[i]) == Some(st.creds[i])
    {
      assert st.leases[i].credential == reqs[i] && st.creds[i].name == reqs[i];
      LastLeaseWins(st.leases, i);
      LastStatusWins(st.creds, i);
    }
  }

  lemma CommittedLease(st: RunState, reqs: seq<string>, broker: string -> IssueResult, i: nat, now: int)
    requires StatusCommitted(st, reqs, broker) && i < |reqs|
    ensures broker(reqs[i]).Issued?
    ensures CoveredBy(st.leases, st.creds, reqs[i], now) <==> now + 30_000_000_000 <= broker(reqs[i]).expiresAt
  {
    CommittedEntries(st, reqs, broker);
    assert reqs[i] in reqs;
  }

  /** A committed status covers the requirements exactly as long as all of its leases are fresh. */
  lemma CommittedIsCovered(st: RunState, reqs: seq<string>, broker: string -> IssueResult, now: int)
    requires StatusCommitted(st, reqs, broker)
    ensures StatusCovers(st.leases, st.creds, reqs, now) <==> InWindow(reqs, broker, now)
  {
    forall c | c in reqs
      ensures broker(c).Issued?
      ensures CoveredBy(st.leases, st.creds, c, now) <==> now + 30_000_000_000 <= broker(c).expiresAt
    {
      var i :| 0 <= i < |reqs| && reqs[i] == c;
      CommittedLease(st, reqs, broker, i, now);
    }
  }

  /** A Secret with a value for each of the distinct names has other keys iff it is longer than the list. */
  lemma ExtrasAreCounted(data: map<string, Bytes>, reqs: seq<string>)
    requires Distinct(reqs) && forall c :: c in reqs ==> c in data
    ensures |data| > |reqs| <==> data.Keys != Names(reqs)
  {
    DistinctCount(reqs);
    assert |data.Keys| == |data|;
    if |data| <= |reqs| {
      EqualBySize(Names(reqs), data.Keys);
    }
  }

  /**
   A reconcile passes without an Issue call: the committed leases are fresh or an older status
   that it sees covers the requirements, the Secret that it reads has all the values, and extra
   keys that it sees are pruned.
   */
  predicate Passes(api: Api, reqs: seq<string>, broker: string -> IssueResult, now: int) {
    && (if api.status.Newest? then InWindow(reqs, broker, now)
        else StatusCovers(api.status.leases, api.status.creds, reqs, now))
    && ReadCovers(api.read, reqs)
    && (api.read.data.Keys != Names(reqs) ==> api.prune.Written?)
  }

  /** The Secret after a reconcile that passes: the one it read without extras, or untouched. */
  function PassedSecret(secret: Option<map<string, Bytes>>, api: Api, reqs: seq<string>): Option<map<string, Bytes>>
    requires ReadCovers(api.read, reqs)
  {
    if api.read.data.Keys != Names(reqs) then Some(map c | c in Names(reqs) :: api.read.data[c]) else secret
  }

  /** One reconcile of a committed run calls Issue if and only if it does not pass. */
  lemma FreshReconcileIssuesIff(st: RunState, reqs: seq<string>, broker: string -> IssueResult, now: int,
                                later: string -> IssueResult, api: Api, outcome: Outcome, t: RunState)
    requires StatusCommitted(st, reqs, broker) && Reconciles(st, reqs, now, later, api, outcome, t)
    ensures t.issueCalls == st.issueCalls <==> Passes(api, reqs, broker, now)
    ensures !Passes(api, reqs, broker, now) ==> t.issueCalls == st.issueCalls + Calls(reqs, later)
    ensures Passes(api, reqs, broker, now) ==> outcome.Ready? && t == st.(secret := PassedSecret(st.secret, api, reqs))
  {
    CommittedIsCovered(st, reqs, broker, now);
    CommittedEntries(st, reqs, broker);
    if ReadCovers(api.read, reqs) {
      ExtrasAreCounted(api.read.data, reqs);
    }
    if FastPath(st, reqs, now, api) {
      assert t.leases == st.leases && t.creds == st.creds;
    }
  }

  /**
   Renewal: once one required lease is within 30 seconds of its expiry, a reconcile that sees the
   committed status issues again, whatever the Secret holds and whatever the writes do.
   */
  lemma ExpiringLeaseIsRenewed(st: RunState, reqs: seq<string>, broker: string -> IssueResult, name: string, now: int,
                               later: string -> IssueResult, api: Api, outcome: Outcome, t: RunState)
    requires StatusCommitted(st, reqs, broker) && Reconciles(st, reqs, now, later, api, outcome, t)
    requires name in reqs && now + 30_000_000_000 > broker(name).expiresAt && api.status.Newest?
    ensures t.issueCalls == st.issueCalls + Calls(reqs, later) && t.issueCalls != st.issueCalls
    ensures outcome.Ready? ==> IssuesAll(reqs, later) && StatusCommitted(t, reqs, later)
  {
    FreshReconcileIssuesIff(st, reqs, broker, now, later, api, outcome, t);
  }

  /** A Secret as read that lacks a value, or holds an empty one, is issued again; so is one that cannot be read. */
  lemma MissingValueIsIssuedAgain(st: RunState, reqs: seq<string>, broker: string -> IssueResult, name: string,
                                  now: int, later: string -> IssueResult, api: Api, outcome: Outcome, t: RunState)
    requires StatusCommitted(st, reqs, broker) && Reconciles(st, reqs, now, later, api, outcome, t)
    requires name in reqs && (api.read.Found? && name in api.read.data ==> |api.read.data[name]| == 0)
    ensures t.issueCalls == st.issueCalls + Calls(reqs, later) && t.issueCalls != st.issueCalls
  {
    FreshReconcileIssuesIff(st, reqs, broker, now, later, api, outcome, t);
  }

  /**
   Without requirements no credential is issued: a Secret that is found is deleted and the
   credential status emptied, while the leases stay to be revoked.
   */
  lemma NoRequirementsDropsSecret(st: RunState, now: int, broker: string -> IssueResult, api: Api,
                                  outcome: Outcome, t: RunState)
    requires Reconciles(st, [], now, broker, api, outcome, t)
    ensures t.issueCalls == st.issueCalls && t.leases == st.leases
    ensures outcome.Ready? <==> api.read.Absent? || (api.read.Found? && api.upsert.Written?)
    ensures outcome.Ready? && api.read.Found? ==> t.secret == None
    ensures outcome.Ready? && api.status.Newest? ==> t.creds == []
  {
  }

  /** What happens to a run: reconciles, and foreign keys put into the Secret. */
  datatype Event =
    | ReconcileAt(now: int, answers: string -> IssueResult, api: Api)
    | AddKey(key: string, value: Bytes)

  predicate Happens(st: RunState, reqs: seq<string>, e: Event, t: RunState) {
    match e
    case ReconcileAt(now, answers, api) => exists outcome :: Reconciles(st, reqs, now, answers, api, outcome, t)
    case AddKey(k, v) => t == if st.secret.None? then st else st.(secret := Some(st.secret.value[k := v]))
  }

  /** The states of a run: states[i] is the one before events[i]. */
  ghost predicate Trace(states: seq<RunState>, reqs: seq<string>, events: seq<Event>) {
    |states| == |events| + 1 && forall i :: 0 <= i < |events| ==> Happens(states[i], reqs, events[i], states[i + 1])
  }

  predicate EventPasses(e: Event, reqs: seq<string>, broker: string -> IssueResult) {
    e.ReconcileAt? ==> Passes(e.api, reqs, broker, e.now)
  }

  /** Every reconcile passes. */
  predicate AllPass(events: seq<Event>, reqs: seq<string>, broker: string -> IssueResult) {
    events == []
    || (AllPass(events[..|events| - 1], reqs, broker) && EventPasses(events[|events| - 1], reqs, broker))
  }

  lemma CallsOnlyGrow(st: RunState, reqs: seq<string>, e: Event, t: RunState)
    requires Happens(st, reqs, e, t)
    ensures st.issueCalls <= t.issueCalls
  {
  }

  /** One event of the window on a committed status. */
  lemma WindowStep(st: RunState, reqs: seq<string>, broker: string -> IssueResult, e: Event, t: RunState)
    requires StatusCommitted(st, reqs, broker) && Happens(st, reqs, e, t)
    ensures t.issueCalls == st.issueCalls <==> EventPasses(e, reqs, broker)
    ensures EventPasses(e, reqs, broker) ==> StatusCommitted(t, reqs, broker)
    ensures e.ReconcileAt? && EventPasses(e, reqs, broker) ==> t.secret == PassedSecret(st.secret, e.api, reqs)
  {
    if e.ReconcileAt? {
      var outcome :| Reconciles(st, reqs, e.now, e.answers, e.api, outcome, t);
      FreshReconcileIssuesIff(st, reqs, broker, e.now, e.answers, e.api, outcome, t);
    }
  }

  lemma TracePrefix(states: seq<RunState>, reqs: seq<string>, events: seq<Event>)
    requires events != [] && Trace(states, reqs, events)
    ensures var n := |events| - 1;
            Trace(states[..n + 1], reqs, events[..n]) && Happens(states[n], reqs, events[n], states[n + 1])
  {
  }

  /** The run `st` after a window of `events`, for which `start` were the Issue calls made before. */
  predicate WindowResult(start: seq<string>, st: RunState, reqs: seq<string>, broker: string -> IssueResult,
                         events: seq<Event>) {
    && start <= st.issueCalls
    && (st.issueCalls == start <==> AllPass(events, reqs, broker))
    && (AllPass(events, reqs, broker) ==> StatusCommitted(st, reqs, broker))
  }

  /**
   Over any sequence of reconciles at any times, with stale or failing reads and failing writes,
   and with foreign keys added to the Secret in between, Issue is not called again if and only if
   every reconcile passes. Then the status stays.
   */
  lemma {:induction false} FreshWindow(states: seq<RunState>, reqs: seq<string>, broker: string -> IssueResult,
                                       events: seq<Event>)
    requires Trace(states, reqs, events) && StatusCommitted(states[0], reqs, broker)
    ensures WindowResult(states[0].issueCalls, states[|events|], reqs, broker, events)
    decreases |events|
  {
    var n := |events| - 1;
    if n >= 0 {
      TracePrefix(states, reqs, events);
      FreshWindow(states[..n + 1], reqs, broker, events[..n]);
      CallsOnlyGrow(states[n], reqs, events[n], states[n + 1]);
      if AllPass(events[..n], reqs, broker) {
        WindowStep(states[n], reqs, broker, events[n], states[n + 1]);
      }
    }
  }

  // ------------------------------------------------------ reads that do not lag

  /** Each reconcile sees the committed status, and the Secret as it is unless the read fails. */
  predicate CurrentRead(st: RunState, e: Event) {
    e.ReconcileAt? ==> e.api.status.Newest? && (e.api.read.Found? ==> st.secret == Some(e.api.read.data))
  }

  ghost predicate CurrentReads(states: seq<RunState>, events: seq<Event>)
    requires |states| == |events| + 1
  {
    forall i :: 0 <= i < |events| ==> CurrentRead(states[i], events[i])
  }

  /**
   Every reconcile falls into the fresh window, no read fails, and every reconcile that follows
   the addition of a foreign key writes its prune.
   */
  predicate ReadsAndPrunes(events: seq<Event>, reqs: seq<string>, broker: string -> IssueResult) {
    events == [] ||
    var n := |events| - 1;
    && ReadsAndPrunes(events[..n], reqs, broker)
    && (events[n].ReconcileAt? ==>
          && InWindow(reqs, broker, events[n].now) && events[n].api.read.Found?
          && (n > 0 && events[n - 1].AddKey? ==> events[n].api.prune.Written?))
  }

  /** The added keys are foreign. */
  predicate Foreign(events: seq<Event>, reqs: seq<string>) {
    forall i :: 0 <= i < |events| && events[i].AddKey? ==> events[i].key !in reqs
  }

  /** Status and Secret hold what `broker` issued, with values. */
  predicate Committed(st: RunState, reqs: seq<string>, broker: string -> IssueResult) {
    && StatusCommitted(st, reqs, broker) && Carries(st.secret, reqs, broker)
    && forall c :: c in reqs ==> broker(c).value != []
  }

  /** One event with a current read on a committed run. */
  lemma CurrentStep(st: RunState, reqs: seq<string>, broker: string -> IssueResult, e: Event, t: RunState)
    requires Committed(st, reqs, broker) && Happens(st, reqs, e, t) && CurrentRead(st, e)
    requires e.AddKey? ==> e.key !in reqs
    ensures EventPasses(e, reqs, broker) <==>
            (e.ReconcileAt? ==> InWindow(reqs, broker, e.now) && e.api.read.Found?
                                && (ExactKeys(st.secret, reqs) || e.api.prune.Written?))
    ensures EventPasses(e, reqs, broker) ==>
              Committed(t, reqs, broker) && (ExactKeys(t.secret, reqs) <==> e.ReconcileAt?)
  {
    WindowStep(st, reqs, broker, e, t);
    if e.AddKey? {
      assert e.key in t.secret.value.Keys;
    }
  }

  predicate CurrentResult(st: RunState, reqs: seq<string>, broker: string -> IssueResult, events: seq<Event>) {
    && (AllPass(events, reqs, broker) <==> ReadsAndPrunes(events, reqs, broker))
    && (AllPass(events, reqs, broker) ==>
          Committed(st, reqs, broker)
          && (ExactKeys(st.secret, reqs) <==> events == [] || events[|events| - 1].ReconcileAt?))
  }

  lemma CurrentNext(s: RunState, reqs: seq<string>, broker: string -> IssueResult, events: seq<Event>, t: RunState)
    requires events != [] && IssuesAll(reqs, broker)
    requires CurrentResult(s, reqs, broker, events[..|events| - 1])
    requires Happens(s, reqs, events[|events| - 1], t) && Foreign(events, reqs)
    requires CurrentRead(s, events[|events| - 1])
    ensures CurrentResult(t, reqs, broker, events)
  {
    var n := |events| - 1;
    if AllPass(events[..n], reqs, broker) {
      CurrentStep(s, reqs, broker, events[n], t);
    }
  }

  lemma CurrentPrefix(states: seq<RunState>, events: seq<Event>)
    requires events != [] && |states| == |events| + 1 && CurrentReads(states, events)
    ensures var n := |events| - 1; CurrentReads(states[..n + 1], events[..n]) && CurrentRead(states[n], events[n])
  {
  }

  lemma {:induction false} CurrentRuns(states: seq<RunState>, reqs: seq<string>, broker: string -> IssueResult,
                                       events: seq<Event>)
    requires Trace(states, reqs, events) && Committed(states[0], reqs, broker) && ExactKeys(states[0].secret, reqs)
    requires Foreign(events, reqs) && CurrentReads(states, events)
    ensures CurrentResult(states[|events|], reqs, broker, events)
    decreases |events|
  {
    var n := |events| - 1;
    if n >= 0 {
      TracePrefix(states, reqs, events);
      CurrentPrefix(states, events);
      CurrentRuns(states[..n + 1], reqs, broker, events[..n]);
      CurrentNext(states[n], reqs, broker, events, states[n + 1]);
    }
  }

  /**
   With reads that are current unless they fail, Issue is not called again if and only if every
   reconcile falls into the fresh window, no read fails and every due prune is written. Then status
   and issued values stay, and after a reconcile the Secret holds exactly the required keys.
   */
  lemma CurrentWindow(states: seq<RunState>, reqs: seq<string>, broker: string -> IssueResult, events: seq<Event>)
    requires Trace(states, reqs, events) && Committed(states[0], reqs, broker) && ExactKeys(states[0].secret, reqs)
    requires Foreign(events, reqs) && CurrentReads(states, events)
    ensures states[|events|].issueCalls == states[0].issueCalls <==> ReadsAndPrunes(events, reqs, broker)
    ensures ReadsAndPrunes(events, reqs, broker) ==>
              && Committed(states[|events|], reqs, broker)
              && (ExactKeys(states[|events|].secret, reqs) <==> events == [] || events[|events| - 1].ReconcileAt?)
  {
    FreshWindow(states, reqs, broker, events);
    CurrentRuns(states, reqs, broker, events);
  }

  /**
   The run's first reconcile issues every credential once; over what follows, the total stays at
   one Issue call per required credential if and only if every reconcile passes.
   */
  lemma IssuedOncePerCredential(reqs: seq<string>, start: int, broker: string -> IssueResult, read: SecretRead,
                                prune: SecretWrite, outcome: Outcome, states: seq<RunState>, events: seq<Event>)
    requires reqs != [] && Distinct(reqs) && IssuesAll(reqs, broker)
    requires Trace(states, reqs, events)
    requires Reconciles(RunState([], [], None, []), reqs, start, broker,
                        Api(Newest, read, prune, Written), outcome, states[0])
    ensures outcome.Ready? && StatusCommitted(states[0], reqs, broker)
    ensures Carries(states[0].secret, reqs, broker) && ExactKeys(states[0].secret, reqs)
    ensures states[|events|].issueCalls == reqs <==> AllPass(events, reqs, broker)
  {
    IssuesAllIff(reqs, broker);
    assert [] + reqs == reqs;
    FreshWindow(states, reqs, broker, events);
  }

  // ------------------------------------------------------ the failures, at an input

  /** Every reconcile has a result: the contract can be met. */
  lemma ReconcileHasResult(st: RunState, reqs: seq<string>, now: int, broker: string -> IssueResult, api: Api)
    returns (outcome: Outcome, t: RunState)
    ensures Reconciles(st, reqs, now, broker, api, outcome, t)
  {
    if reqs == [] {
      var fails := api.read.Unreadable? || (api.read.Found? && !api.upsert.Written?);
      outcome := if fails then Error else Ready;
      t := if fails then st else st.(creds := if api.status.Newest? then [] else st.creds,
                                     secret := if api.read.Found? then None else st.secret);
    } else if FastPath(st, reqs, now, api) {
      outcome := Ready;
      t := FastState(st, reqs, now, api);
    } else {
      IssuesAllIff(reqs, broker);
      outcome := if IssuesAll(reqs, broker) && api.upsert.Failed? then Error else CycleOutcome(reqs, broker);
      t := st.(issueCalls := st.issueCalls + Calls(reqs, broker));
      if outcome.Ready? {
        t := IssuedState(t, reqs, broker, api);
      }
    }
  }

  lemma FastState(st: RunState, reqs: seq<string>, now: int, api: Api) returns (t: RunState)
    requires FastPath(st, reqs, now, api)
    ensures t.issueCalls == st.issueCalls && Unwritten(st, api, t)
    ensures t.secret == if |api.read.data| > |reqs| then Some(Prune(api.read.data, reqs)) else st.secret
    ensures api.status.Newest? ==> Recorded(st.leases, st.creds, reqs, t.leases, t.creds)
  {
    t := st.(secret := if |api.read.data| > |reqs| then Some(Prune(api.read.data, reqs)) else st.secret);
    if api.status.Newest? {
      var l := seq(|reqs|, i requires 0 <= i < |reqs| =>
        LastLease(st.leases, reqs[i]).GetOr(Lease("", "", "", None)));
      var c := seq(|reqs|, i requires 0 <= i < |reqs| => LastStatus(st.creds, reqs[i]).GetOr(CredentialStatus("", "")));
      t := t.(leases := l, creds := c);
      forall i | 0 <= i < |reqs|
        ensures LastLease(st.leases, reqs[i]) == Some(l[i]) && LastStatus(st.creds, reqs[i]) == Some(c[i])
      {
        assert CoveredBy(st.leases, st.creds, reqs[i], now);
      }
    }
  }

  lemma IssuedState(st: RunState, reqs: seq<string>, broker: string -> IssueResult, api: Api) returns (t: RunState)
    requires IssuesAll(reqs, broker)
    ensures t.issueCalls == st.issueCalls && Unwritten(st, api, t)
    ensures api.status.Newest? ==> Settled(t.leases, t.creds, reqs, broker)
    ensures if api.upsert.Written? then Carries(t.secret, reqs, broker) && ExactKeys(t.secret, reqs)
            else t.secret == st.secret
  {
    t := st;
    if api.upsert.Written? {
      t := t.(secret := Some(map c | c in Names(reqs) :: broker(c).value));
    }
    if api.status.Newest? {
      t := t.(leases := seq(|reqs|, i requires 0 <= i < |reqs| => LeaseOf(reqs[i], broker(reqs[i]))),
              creds := seq(|reqs|, i requires 0 <= i < |reqs| => CredentialStatus(reqs[i], broker(reqs[i]).provider)));
    }
  }

  /** A run with one requirement, its value, and perhaps an extra key in the Secret. */
  function OneCredential(value: Bytes, extra: bool): RunState {
    RunState([Lease("A", "p", "l", Some(LEASE_RENEW_SKEW))], [CredentialStatus("A", "p")],
             Some(if extra then map["A" := value, "EXTRA" := value] else map["A" := value]), ["A"])
  }

  function Answer(value: Bytes): string -> IssueResult {
    _ => Issued(value, "p", "l", LEASE_RENEW_SKEW)
  }

  lemma OneCredentialIsCommitted(value: Bytes, extra: bool)
    requires value != []
    ensures Committed(OneCredential(value, extra), ["A"], Answer(value)) && InWindow(["A"], Answer(value), 0)
    ensures ExactKeys(OneCredential(value, extra).secret, ["A"]) <==> !extra
    ensures Distinct(["A"]) && IssuesAll(["A"], Answer(value))
  {
    assert "A" in Names(["A"]) && "EXTRA" !in Names(["A"]);
    if extra {
      assert "EXTRA" in OneCredential(value, extra).secret.value.Keys;
    }
  }

  /** A committed run that does not pass: Issue is called again for every credential. */
  lemma FailedPassIssuesAgain(st: RunState, reqs: seq<string>, broker: string -> IssueResult, now: int,
                              later: string -> IssueResult, api: Api, outcome: Outcome, t: RunState)
    requires StatusCommitted(st, reqs, broker) && IssuesAll(reqs, later)
    requires Reconciles(st, reqs, now, later, api, outcome, t) && !Passes(api, reqs, broker, now)
    ensures t.issueCalls == st.issueCalls + reqs
    ensures api.upsert.Conflict? ==> outcome.Ready? && t.secret == st.secret
    ensures outcome.Ready? && api.status.Newest? ==> Settled(t.leases, t.creds, reqs, later)
  {
    FreshReconcileIssuesIff(st, reqs, broker, now, later, api, outcome, t);
    IssuesAllIff(reqs, later);
  }

  /** A Secret cache that lags: nothing is wrong, every write succeeds, and Issue is called again. */
  lemma LaggingSecretIssuesAgain(value: Bytes) returns (outcome: Outcome, t: RunState)
    requires value != []
    ensures var api := Api(Newest, Absent, Written, Written);
            Reconciles(OneCredential(value, false), ["A"], 0, Answer(value), api, outcome, t)
    ensures t.issueCalls == ["A", "A"]
  {
    var st, api := OneCredential(value, false), Api(Newest, Absent, Written, Written);
    OneCredentialIsCommitted(value, false);
    outcome, t := ReconcileHasResult(st, ["A"], 0, Answer(value), api);
    FailedPassIssuesAgain(st, ["A"], Answer(value), 0, Answer(value), api, outcome, t);
  }

  /** A status cache that lags: Issue is called again, and the Secret no longer matches the committed lease. */
  lemma LaggingStatusIssuesAgain(value: Bytes, value': Bytes) returns (outcome: Outcome, t: RunState)
    requires value != [] && value != value'
    ensures var st := OneCredential(value, false);
            var api := Api(Older([], []), Found(st.secret.value), Written, Written);
            Reconciles(st, ["A"], 0, Answer(value'), api, outcome, t)
    ensures t.issueCalls == ["A", "A"] && t.leases == OneCredential(value, false).leases
    ensures !Carries(t.secret, ["A"], Answer(value))
  {
    var st := OneCredential(value, false);
    var api := Api(Older([], []), Found(st.secret.value), Written, Written);
    OneCredentialIsCommitted(value, false);
    assert "A" in ["A"];
    IssuesAllIff(["A"], Answer(value'));
    outcome, t := ReconcileHasResult(st, ["A"], 0, Answer(value'), api);
    FailedPassIssuesAgain(st, ["A"], Answer(value), 0, Answer(value'), api, outcome, t);
  }

  /** A prune and an upsert that conflict: issued again, with the old value and the extra key in the Secret. */
  lemma PruneConflictIssuesAgain(value: Bytes, value': Bytes) returns (outcome: Outcome, t: RunState)
    requires value != [] && value != value'
    ensures var st := OneCredential(value, true);
            var api := Api(Newest, Found(st.secret.value), Conflict, Conflict);
            Reconciles(st, ["A"], 0, Answer(value'), api, outcome, t)
    ensures outcome.Ready? && t.issueCalls == ["A", "A"]
    ensures !Carries(t.secret, ["A"], Answer(value')) && "EXTRA" in t.secret.value
  {
    var st := OneCredential(value, true);
    var api := Api(Newest, Found(st.secret.value), Conflict, Conflict);
    OneCredentialIsCommitted(value, true);
    assert "A" in ["A"];
    outcome, t := ReconcileHasResult(st, ["A"], 0, Answer(value'), api);
    FailedPassIssuesAgain(st, ["A"], Answer(value), 0, Answer(value'), api, outcome, t);
  }

  /** A stale Secret read that does not show the extra key: the reconcile passes and the key stays. */
  lemma StaleReadKeepsExtraKey(value: Bytes) returns (outcome: Outcome, t: RunState)
    requires value != []
    ensures var api := Api(Newest, Found(OneCredential(value, false).secret.value), Written, Written);
            Reconciles(OneCredential(value, true), ["A"], 0, Answer(value), api, outcome, t)
    ensures outcome.Ready? && t == OneCredential(value, true) && "EXTRA" in t.secret.value
  {
    var st, api := OneCredential(value, true),
                   Api(Newest, Found(OneCredential(value, false).secret.value), Written, Written);
    OneCredentialIsCommitted(value, true);
    OneCredentialIsCommitted(value, false);
    StalePasses(value, api);
    outcome, t := ReconcileHasResult(st, ["A"], 0, Answer(value), api);
    FreshReconcileIssuesIff(st, ["A"], Answer(value), 0, Answer(value), api, outcome, t);
  }

  lemma StalePasses(value: Bytes, api: Api)
    requires value != [] && api.status.Newest? && api.read == Found(OneCredential(value, false).secret.value)
    ensures Passes(api, ["A"], Answer(value), 0) && forall secret :: PassedSecret(secret, api, ["A"]) == secret
  {
    OneCredentialIsCommitted(value, false);
  }

  /** An upsert that conflicts is ignored: whatever started the Issue cycle, the existing Secret stays. */
  lemma UpsertConflictKeepsSecret(st: RunState, reqs: seq<string>, now: int, broker: string -> IssueResult, api: Api,
                                  outcome: Outcome, t: RunState)
    requires reqs != [] && IssuesAll(reqs, broker) && st.secret.Some?
    requires !FastPath(st, reqs, now, api) && api.upsert.Conflict?
    requires Reconciles(st, reqs, now, broker, api, outcome, t)
    ensures outcome.Ready? && t.secret == st.secret && t.issueCalls == st.issueCalls + reqs
    ensures api.status.Newest? ==> Settled(t.leases, t.creds, reqs, broker)
  {
    IssuesAllIff(reqs, broker);
  }
}
