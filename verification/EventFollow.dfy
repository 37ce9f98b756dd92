/**
 `kubectl paddock events --follow` (internal/cli/events.go): the polling loop prints the events
 of each status snapshot that the bounded de-duplicator has not seen. Events are represented by
 their fingerprints.
 */
module EventFollow {
  import opened Wrappers

  const DEDUPE_CAP := 256

  /** The newest entries, at most the capacity. */
  function Recent(printed: seq<string>): seq<string> {
    if |printed| > DEDUPE_CAP then printed[|printed| - DEDUPE_CAP..] else printed
  }

  class EventDedupe {
    var seen: set<string>
    var order: seq<string>

    ghost predicate Valid()
      reads this
    {
      && (forall x :: x in seen <==> x in order)
      && Distinct(order) && |order| <= 256
    }

    constructor ()
      ensures Valid() && order == []
    {
      seen, order := {}, [];
    }

    /** addIfNew: records a fingerprint, forgetting the oldest one beyond the capacity. */
    method AddIfNew(fp: string) returns (isNew: bool)
      requires Valid()
      modifies this
      ensures Valid()
      ensures isNew <==> fp !in old(order)
      ensures order == if isNew then Recent(old(order) + [fp]) else old(order)
    {
      if fp in seen {
        return false;
      }
      seen := seen + {fp};
      order := order + [fp];
      NewestAdded(old(order), fp);
      if |order| > DEDUPE_CAP {
        DropOldest(order);
        var drop := order[0];
        order := order[1..];
        seen := seen - {drop};
      }
      return true;
    }
  }

  lemma NewestAdded(order: seq<string>, fp: string)
    requires Distinct(order) && fp !in order
    ensures Distinct(order + [fp]) && forall x :: x in order + [fp] <==> x in order || x == fp
  {
  }

  lemma DropOldest(order: seq<string>)
    requires order != [] && Distinct(order)
    ensures forall x :: x in order[1..] <==> x in order && x != order[0]
  {
    assert order == [order[0]] + order[1..];
  }

  /** A snapshot of the event ring: the log entries lo..hi. */
  datatype View = View(lo: nat, hi: nat)

  /** Snapshots slide forward over the log and hold at most 256 events. */
  predicate Sliding(views: seq<View>, n: nat) {
    && (forall i :: 0 <= i < |views| ==> views[i].lo <= views[i].hi <= n && views[i].hi - views[i].lo <= 256)
    && (forall i :: 0 < i < |views| ==> views[i - 1].lo <= views[i].lo && views[i - 1].hi <= views[i].hi)
  }

  ghost predicate Shown(views: seq<View>, k: int) {
    exists i :: 0 <= i < |views| && views[i].lo <= k < views[i].hi
  }

  /** `printed` lists the log entries at the positions `at`, in log order and without repeats. */
  predicate PrintedAt(log: seq<string>, printed: seq<string>, at: seq<nat>) {
    && |printed| == |at|
    && (forall i :: 0 <= i < |at| ==> at[i] < |log| && printed[i] == log[at[i]])
    && (forall i, j :: 0 <= i < j < |at| ==> at[i] < at[j])
  }

  /** The positions lo..hi are the last ones printed, and nothing from hi on is. */
  predicate UpTo(at: seq<nat>, lo: nat, hi: nat) {
    && (lo < hi ==> hi - lo <= |at|)
    && (forall i :: 0 <= i < |at| ==> at[i] < hi)
    && (forall i :: 0 <= i < |at| && lo < hi && |at| - (hi - lo) <= i ==> at[i] == hi - (|at| - i))
  }

  function Span(a: nat, b: nat): (r: seq<nat>)
    requires a <= b
    ensures |r| == b - a && forall i :: 0 <= i < |r| ==> r[i] == a + i
    ensures forall k :: k in r <==> a <= k < b
    decreases b - a
  {
    if a == b then [] else Span(a, b - 1) + [b - 1]
  }

  function Max(a: nat, b: nat): nat {
    if a < b then b else a
  }

  lemma RecentAppend(printed: seq<string>, e: string)
    ensures Recent(Recent(printed) + [e]) == Recent(printed + [e])
  {
  }

  /** An entry that was in the previous snapshot is still remembered. */
  lemma PrintedIsRemembered(log: seq<string>, printed: seq<string>, at: seq<nat>, lo: nat, hi: nat, k: nat)
    requires PrintedAt(log, printed, at) && UpTo(at, lo, hi) && hi - lo <= DEDUPE_CAP && lo <= k < hi <= |log|
    ensures log[k] in Recent(printed) && k in at
  {
    var i := |at| - (hi - k);
    assert at[i] == k && printed[i] == log[k];
    assert Recent(printed)[i - (|printed| - |Recent(printed)|)] == printed[i];
  }

  /** An entry beyond everything printed is not remembered. */
  lemma UnprintedIsUnknown(log: seq<string>, printed: seq<string>, at: seq<nat>, lo: nat, hi: nat, from: nat, k: nat)
    requires PrintedAt(log, printed, at) && UpTo(at, lo, hi) && Distinct(log) && hi <= from <= k < |log|
    ensures log[k] !in Recent(printed + log[from..k])
  {
    var p := printed + log[from..k];
    assert forall i :: 0 <= i < |printed| ==> p[i] == log[at[i]] && at[i] < k;
    assert forall i :: |printed| <= i < |p| ==> p[i] == log[from + (i - |printed|)];
  }

  /** The loop body of a poll: an event is printed unless it is remembered. */
  method PrintIfNew(d: EventDedupe, printed: seq<string>, e: string) returns (printed': seq<string>)
    requires d.Valid() && d.order == Recent(printed)
    modifies d
    ensures d.Valid() && d.order == Recent(printed')
    ensures printed' == if e in Recent(printed) then printed else printed + [e]
  {
    RecentAppend(printed, e);
    printed' := printed;
    var isNew := d.AddIfNew(e);
    if isNew {
      printed' := printed' + [e];
    }
  }

  /** What has been printed before snapshot entry j, if printing starts at `from`. */
  function PrintedBefore(log: seq<string>, printed: seq<string>, from: nat, j: nat): seq<string>
    requires from <= |log| && j <= |log|
  {
    printed + log[from..Max(j, from)]
  }

  /** Entry j is printed exactly when it lies at `from` or beyond. */
  predicate Continues(log: seq<string>, printed: seq<string>, from: nat, j: nat)
    requires from <= |log| && j < |log|
  {
    var p := PrintedBefore(log, printed, from, j);
    PrintedBefore(log, printed, from, j + 1) == if log[j] in Recent(p) then p else p + [log[j]]
  }

  /** One poll prints the part of the snapshot from `from` on: all of it that is new. */
  method PrintSnapshot(log: seq<string>, d: EventDedupe, view: View, printed: seq<string>, ghost from: nat)
    returns (printed': seq<string>)
    requires view.lo <= view.hi <= |log| && view.lo <= from <= view.hi
    requires forall j :: view.lo <= j < view.hi ==> Continues(log, printed, from, j)
    requires d.Valid() && d.order == Recent(printed) && printed == PrintedBefore(log, printed, from, view.lo)
    modifies d
    ensures d.Valid() && d.order == Recent(printed')
    ensures printed' == PrintedBefore(log, printed, from, view.hi)
  {
    printed' := printed;
    for j := view.lo to view.hi
      invariant d.Valid() && d.order == Recent(printed')
      invariant printed' == PrintedBefore(log, printed, from, j)
    {
      printed' := PrintNext(d, log, printed, from, j, printed');
    }
  }

  lemma PrintedEnds(log: seq<string>, printed: seq<string>, from: nat, view: View)
    requires view.lo <= from <= view.hi <= |log|
    ensures PrintedBefore(log, printed, from, view.lo) == printed
    ensures PrintedBefore(log, printed, from, view.hi) == printed + log[from..view.hi]
  {
  }

  /** Snapshot entry j. */
  method PrintNext(d: EventDedupe, log: seq<string>, ghost printed: seq<string>, ghost from: nat,
                     j: nat, before: seq<string>)
    returns (after: seq<string>)
    requires from <= |log| && j < |log| && Continues(log, printed, from, j)
    requires d.Valid() && d.order == Recent(before) && before == PrintedBefore(log, printed, from, j)
    modifies d
    ensures d.Valid() && d.order == Recent(after)
    ensures after == PrintedBefore(log, printed, from, j + 1)
  {
    after := PrintIfNew(d, before, log[j]);
  }

  lemma SnapshotEntry(log: seq<string>, printed: seq<string>, at: seq<nat>, lo: nat, hi: nat, from: nat, j: nat)
    requires Distinct(log) && PrintedAt(log, printed, at) && UpTo(at, lo, hi) && hi - lo <= DEDUPE_CAP
    requires lo <= j < |log| && hi <= from <= |log| && (j < from ==> j < hi)
    ensures Continues(log, printed, from, j)
  {
    var p := printed + log[from..Max(j, from)];
    if j < from {
      PrintedIsRemembered(log, printed, at, lo, hi, j);
      assert p == printed;
    } else {
      UnprintedIsUnknown(log, printed, at, lo, hi, from, j);
      assert log[from..j] + [log[j]] == log[from..j + 1];
    }
  }

  lemma SpanKeepsOrder(log: seq<string>, printed: seq<string>, at: seq<nat>, lo: nat, hi: nat, from: nat, to: nat)
    requires PrintedAt(log, printed, at) && UpTo(at, lo, hi) && hi <= from <= to <= |log|
    ensures PrintedAt(log, printed + log[from..to], at + Span(from, to))
  {
  }

  lemma SpanIsLast(at: seq<nat>, lo: nat, hi: nat, view: View)
    requires UpTo(at, lo, hi) && lo <= view.lo <= view.hi && lo <= hi <= view.hi
    ensures UpTo(at + Span(Max(view.lo, hi), view.hi), view.lo, view.hi)
  {
  }

  /** What a poll adds keeps the order, and the new snapshot is at the end. */
  lemma PollExtends(log: seq<string>, printed: seq<string>, at: seq<nat>, lo: nat, hi: nat, view: View)
    requires PrintedAt(log, printed, at) && UpTo(at, lo, hi)
    requires lo <= view.lo <= view.hi <= |log| && lo <= hi <= view.hi
    ensures var from := Max(view.lo, hi);
            PrintedAt(log, printed + log[from..view.hi], at + Span(from, view.hi))
            && UpTo(at + Span(from, view.hi), view.lo, view.hi)
            && forall k :: k in at + Span(from, view.hi) <==> k in at || view.lo <= k < view.hi
  {
    SpanKeepsOrder(log, printed, at, lo, hi, Max(view.lo, hi), view.hi);
    SpanIsLast(at, lo, hi, view);
    forall k | view.lo <= k < hi ensures k in at {
      assert at[|at| - (hi - k)] == k;
    }
  }

  /**
   Following a duplicate-free log through any forward-sliding snapshots of at most 256 events
   prints every event that appears in some snapshot exactly once and in log order, and nothing
   else.
   */
  method FollowEvents(log: seq<string>, views: seq<View>) returns (printed: seq<string>)
    requires Distinct(log) && Sliding(views, |log|)
    ensures PrintsShown(log, views, printed)
    ensures Distinct(printed)
    ensures forall k :: 0 <= k < |log| ==> (log[k] in printed <==> Shown(views, k))
  {
    var d := new EventDedupe();
    printed := [];
    ghost var at: seq<nat> := [];
    ghost var last := View(0, 0);
    for i := 0 to |views|
      invariant d.Valid() && d.order == Recent(printed) && fresh(d)
      invariant i < |views| ==> last.lo <= views[i].lo && last.hi <= views[i].hi
      invariant Following(log, views[..i], printed, at, last)
    {
      PollIsNext(log, views, i, printed, at, last);
      ghost var from := Max(views[i].lo, last.hi);
      printed := PrintSnapshot(log, d, views[i], printed, from);
      at := at + Span(from, views[i].hi);
      last := views[i];
    }
    assert views[..|views|] == views;
    ShownExactlyOnce(log, views, printed, at);
  }

  /** `printed` lists exactly the log entries that some snapshot shows, in log order. */
  ghost predicate PrintsShown(log: seq<string>, views: seq<View>, printed: seq<string>) {
    exists at :: PrintedAt(log, printed, at) && forall k :: k in at <==> Shown(views, k)
  }

  /** After the snapshots `views`, of which `last` is the last. */
  ghost predicate Following(log: seq<string>, views: seq<View>, printed: seq<string>, at: seq<nat>, last: View) {
    && last.lo <= last.hi <= |log| && last.hi - last.lo <= DEDUPE_CAP
    && PrintedAt(log, printed, at) && UpTo(at, last.lo, last.hi)
    && forall k :: k in at <==> Shown(views, k)
  }

  lemma PollIsNext(log: seq<string>, views: seq<View>, i: nat, printed: seq<string>, at: seq<nat>, last: View)
    requires Distinct(log) && Sliding(views, |log|) && i < |views|
    requires Following(log, views[..i], printed, at, last) && last.lo <= views[i].lo && last.hi <= views[i].hi
    ensures var view, from := views[i], Max(views[i].lo, last.hi);
            && from <= view.hi && PrintedBefore(log, printed, from, view.lo) == printed
            && (forall j :: view.lo <= j < view.hi ==> Continues(log, printed, from, j))
            && Following(log, views[..i + 1], PrintedBefore(log, printed, from, view.hi),
                         at + Span(from, view.hi), view)
  {
    PollExtends(log, printed, at, last.lo, last.hi, views[i]);
    ShownNext(views, i);
    var from := Max(views[i].lo, last.hi);
    PrintedEnds(log, printed, from, views[i]);
    forall j | views[i].lo <= j < views[i].hi ensures Continues(log, printed, from, j) {
      SnapshotEntry(log, printed, at, last.lo, last.hi, from, j);
    }
  }

  lemma ShownNext(views: seq<View>, i: nat)
    requires i < |views|
    ensures forall k :: Shown(views[..i + 1], k) <==> Shown(views[..i], k) || views[i].lo <= k < views[i].hi
  {
    var a, b := views[..i], views[..i + 1];
    assert b == a + [views[i]];
    forall k ensures Shown(b, k) <==> Shown(a, k) || views[i].lo <= k < views[i].hi {
      assert b[i] == views[i];
      if Shown(a, k) {
        var j :| 0 <= j < |a| && a[j].lo <= k < a[j].hi;
        assert b[j] == a[j];
      }
    }
  }

  /** In a duplicate-free log, positions and fingerprints name the same events. */
  lemma ShownExactlyOnce(log: seq<string>, views: seq<View>, printed: seq<string>, at: seq<nat>)
    requires Distinct(log) && PrintedAt(log, printed, at) && forall k :: k in at <==> Shown(views, k)
    ensures Distinct(printed)
    ensures forall k :: 0 <= k < |log| ==> (log[k] in printed <==> Shown(views, k))
  {
    forall k | 0 <= k < |log| ensures log[k] in printed <==> Shown(views, k) {
      if k in at {
        var i :| 0 <= i < |at| && at[i] == k;
        assert printed[i] == log[k];
      }
      if log[k] in printed {
        var i :| 0 <= i < |printed| && printed[i] == log[k];
        assert at[i] == k && at[i] in at;
      }
    }
  }

  // ------------------------------------------------------ fingerprints

  /** An event with its fields in key order. */
  datatype Event = Event(timestamp: string, kind: string, summary: string, fields: seq<(string, string)>)

  function FieldText(fields: seq<(string, string)>): string {
    if fields == [] then "" else fields[0].0 + "=" + fields[0].1 + ";" + FieldText(fields[1..])
  }

  /** eventFingerprint. */
  function Fingerprint(ev: Event): string {
    ev.timestamp + "|" + ev.kind + "|" + ev.summary + "|" + FieldText(ev.fields)
  }

  lemma SeparatorSplits(x: string, y: string, x': string, y': string, c: char)
    requires x + [c] + y == x' + [c] + y' && c !in x && c !in x'
    ensures x == x' && y == y'
  {
    var s := x + [c] + y;
    assert s[|x|] == c == s[|x'|];
    assert forall i :: 0 <= i < |x| ==> s[i] == x[i];
    assert forall i :: 0 <= i < |x'| ==> s[i] == x'[i];
    assert x == s[..|x|] && y == s[|x| + 1..];
    assert x' == s[..|x'|] && y' == s[|x'| + 1..];
  }

  /** Timestamp and type, which end at the first bars, hold no bar. */
  predicate PlainHead(ev: Event) {
    '|' !in ev.timestamp && '|' !in ev.kind
  }

  /** Keys and values hold no character that ends them. */
  predicate PlainFields(ev: Event) {
    forall f :: f in ev.fields ==> '=' !in f.0 && ';' !in f.1
  }

  /** The summary of `a` runs on into text that belongs to the fields of `b`. */
  ghost predicate Overlaps(a: Event, b: Event) {
    exists t :: SharesText(a, b, t)
  }

  predicate SharesText(a: Event, b: Event, t: string) {
    a.summary == b.summary + "|" + t && FieldText(b.fields) == t + "|" + FieldText(a.fields)
  }

  lemma {:induction false} FieldTextInjective(a: seq<(string, string)>, b: seq<(string, string)>)
    requires forall f :: f in a || f in b ==> '=' !in f.0 && ';' !in f.1
    requires FieldText(a) == FieldText(b)
    ensures a == b
  {
    if a != [] && b != [] {
      FieldTextHead(a);
      FieldTextHead(b);
      SeparatorSplits(a[0].0, a[0].1 + ";" + FieldText(a[1..]), b[0].0, b[0].1 + ";" + FieldText(b[1..]), '=');
      SeparatorSplits(a[0].1, FieldText(a[1..]), b[0].1, FieldText(b[1..]), ';');
      FieldTextInjective(a[1..], b[1..]);
      assert a == [a[0]] + a[1..] && b == [b[0]] + b[1..];
    }
  }

  lemma FieldTextHead(a: seq<(string, string)>)
    requires a != []
    ensures FieldText(a) == a[0].0 + ['='] + (a[0].1 + [';'] + FieldText(a[1..]))
  {
  }

  /** Two texts cut at a bar are equal: the same cut, or one cut inside the other's part. */
  lemma CutsAgree(x: string, y: string, x': string, y': string)
    requires x + "|" + y == x' + "|" + y' && |x'| <= |x|
    ensures (x == x' && y == y')
            || (|x| > |x'| && x == x' + "|" + x[|x'| + 1..] && y' == x[|x'| + 1..] + "|" + y)
  {
    var s := x + "|" + y;
    assert x == s[..|x|] && y == s[|x| + 1..];
    assert x' == s[..|x'|] && y' == s[|x'| + 1..];
    assert s[|x'|] == '|';
    if |x| > |x'| {
      assert x[..|x'|] == x' && x[|x'|] == '|';
      assert x == x[..|x'|] + [x[|x'|]] + x[|x'| + 1..];
      assert y' == s[|x'| + 1..|x|] + "|" + y;
    }
  }

  /** The fingerprint after timestamp and type. */
  function Tail(ev: Event): string {
    ev.summary + "|" + FieldText(ev.fields)
  }

  lemma HeadsSplit(a: Event, b: Event)
    requires PlainHead(a) && PlainHead(b)
    ensures Fingerprint(a) == Fingerprint(b) <==> a.timestamp == b.timestamp && a.kind == b.kind && Tail(a) == Tail(b)
  {
    assert Fingerprint(a) == a.timestamp + ['|'] + (a.kind + ['|'] + Tail(a));
    assert Fingerprint(b) == b.timestamp + ['|'] + (b.kind + ['|'] + Tail(b));
    if Fingerprint(a) == Fingerprint(b) {
      SeparatorSplits(a.timestamp, a.kind + ['|'] + Tail(a), b.timestamp, b.kind + ['|'] + Tail(b), '|');
      SeparatorSplits(a.kind, Tail(a), b.kind, Tail(b), '|');
    }
  }

  lemma OverlapEqual(a: Event, b: Event, t: string)
    requires SharesText(a, b, t)
    ensures Tail(a) == Tail(b)
  {
    assert b.summary + "|" + t + "|" + FieldText(a.fields) == b.summary + "|" + (t + "|" + FieldText(a.fields));
  }

  lemma TailsEqualIff(a: Event, b: Event)
    ensures Tail(a) == Tail(b) <==>
            (a.summary == b.summary && FieldText(a.fields) == FieldText(b.fields)) || Overlaps(a, b) || Overlaps(b, a)
  {
    if Tail(a) == Tail(b) {
      if |b.summary| <= |a.summary| {
        CutsAgree(a.summary, FieldText(a.fields), b.summary, FieldText(b.fields));
        assert |a.summary| > |b.summary| ==> SharesText(a, b, a.summary[|b.summary| + 1..]);
      } else {
        CutsAgree(b.summary, FieldText(b.fields), a.summary, FieldText(a.fields));
        assert SharesText(b, a, b.summary[|a.summary| + 1..]);
      }
    }
    if t :| SharesText(a, b, t) {
      OverlapEqual(a, b, t);
    }
    if t :| SharesText(b, a, t) {
      OverlapEqual(b, a, t);
    }
  }

  /** Exactly when two fingerprints are equal, whatever keys, values and summaries contain. */
  lemma FingerprintsEqualIff(a: Event, b: Event)
    requires PlainHead(a) && PlainHead(b)
    ensures Fingerprint(a) == Fingerprint(b) <==>
            && a.timestamp == b.timestamp && a.kind == b.kind
            && ((a.summary == b.summary && FieldText(a.fields) == FieldText(b.fields))
                || Overlaps(a, b) || Overlaps(b, a))
  {
    HeadsSplit(a, b);
    TailsEqualIff(a, b);
  }

  /**
   Exactly when two different events collide: they agree on timestamp and type, and the summary of
   one is the other's, a bar, and a text that the other's fields continue.
   */
  lemma FingerprintsCollideIff(a: Event, b: Event)
    requires PlainHead(a) && PlainHead(b) && PlainFields(a) && PlainFields(b) && a != b
    ensures Fingerprint(a) == Fingerprint(b) <==>
            a.timestamp == b.timestamp && a.kind == b.kind && (Overlaps(a, b) || Overlaps(b, a))
  {
    FingerprintsEqualIff(a, b);
    if a.summary == b.summary && FieldText(a.fields) == FieldText(b.fields) {
      FieldTextInjective(a.fields, b.fields);
    }
  }

  /** Without plain keys and values, different fields can have the same text. */
  lemma FieldsCollide(timestamp: string, kind: string, summary: string)
    ensures var a := Event(timestamp, kind, summary, [("a", "1;b=2")]);
            var b := Event(timestamp, kind, summary, [("a", "1"), ("b", "2")]);
            a != b && Fingerprint(a) == Fingerprint(b)
  {
    var f, g := [("a", "1;b=2")], [("a", "1"), ("b", "2")];
    assert f[1..] == [] && g[1..] == [("b", "2")] && g[1..][1..] == [];
    assert FieldText(g[1..]) == "b=2;";
    assert FieldText(f) == "a=1;b=2;" == FieldText(g);
  }

  lemma {:induction false} FieldTextHasNoBar(fields: seq<(string, string)>)
    requires forall f :: f in fields ==> '|' !in f.0 && '|' !in f.1
    ensures '|' !in FieldText(fields)
  {
    if fields != [] {
      FieldTextHasNoBar(fields[1..]);
    }
  }

  /** Events are told apart when the fields hold no bar, whatever the summaries are, or the summaries none. */
  lemma SeparableEventsAreToldApart(a: Event, b: Event)
    requires PlainHead(a) && PlainHead(b) && PlainFields(a) && PlainFields(b)
    requires (forall f :: f in a.fields || f in b.fields ==> '|' !in f.0 && '|' !in f.1)
             || ('|' !in a.summary && '|' !in b.summary)
    ensures Fingerprint(a) == Fingerprint(b) <==> a == b
  {
    if a != b {
      FingerprintsCollideIff(a, b);
      if '|' !in a.summary && '|' !in b.summary {
        NoBarNoOverlap(a, b);
        NoBarNoOverlap(b, a);
      } else {
        FieldTextHasNoBar(a.fields);
        FieldTextHasNoBar(b.fields);
        NoBarNoOverlap(a, b);
        NoBarNoOverlap(b, a);
      }
    }
  }

  lemma NoBarNoOverlap(a: Event, b: Event)
    requires '|' !in a.summary || '|' !in FieldText(b.fields)
    ensures !Overlaps(a, b)
  {
    forall t ensures !SharesText(a, b, t) {
      assert (b.summary + "|" + t)[|b.summary|] == '|';
      assert (t + "|" + FieldText(a.fields))[|t|] == '|';
    }
  }

  /** Distinct events can share a fingerprint, because the separators are not escaped. */
  lemma FingerprintsCollide(timestamp: string, kind: string) returns (a: Event, b: Event)
    ensures a != b && a.timestamp == b.timestamp == timestamp && a.kind == b.kind == kind
    ensures Fingerprint(a) == Fingerprint(b)
  {
    a := Event(timestamp, kind, "x", [("k", "a|c=d")]);
    b := Event(timestamp, kind, "x|k=a", [("c", "d")]);
    assert FieldText(a.fields) == "k=a|c=d;" by {
      assert a.fields[1..] == [];
    }
    assert FieldText(b.fields) == "c=d;" by {
      assert b.fields[1..] == [];
    }
    assert a.summary + "|" + FieldText(a.fields) == b.summary + "|" + FieldText(b.fields);
    var head := timestamp + "|" + kind + "|";
    assert Fingerprint(a) == head + (a.summary + "|" + FieldText(a.fields));
    assert Fingerprint(b) == head + (b.summary + "|" + FieldText(b.fields));
  }
}
