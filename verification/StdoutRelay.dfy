/**
 The stdout relay of the persistent supervisor (cmd/harness-supervisor/persistent.go): harness
 output is written to whichever data connection is current, retrying the unwritten rest of a
 chunk after a failed write.
 */
module StdoutRelay {
  import opened Wrappers

  /**
   What one pass of the write loop meets: whether the current connection has been replaced since
   the last pass, how much the connection takes, and whether the context is cancelled if the
   write fails. A write that takes less than it was given fails, as io.Writer demands; one that
   takes everything may fail as well.
   */
  datatype Attempt = Attempt(swapped: bool, takes: nat, fails: bool, cancelled: bool)

  /** Bytes accepted by the last connection. */
  function Accept(conns: seq<Bytes>, bytes: Bytes): (r: seq<Bytes>)
    requires conns != []
  {
    conns[|conns| - 1 := conns[|conns| - 1] + bytes]
  }

  lemma AcceptFlattens(conns: seq<Bytes>, bytes: Bytes)
    requires conns != []
    ensures Flatten(Accept(conns, bytes)) == Flatten(conns) + bytes
  {
    var n := |conns| - 1;
    assert Accept(conns, bytes)[..n] == conns[..n];
    assert Flatten(conns[..n]) + (conns[n] + bytes) == Flatten(conns[..n]) + conns[n] + bytes;
  }

  /** Accepting the next bytes of a chunk extends what the connections got of it. */
  lemma AcceptNext(conns: seq<Bytes>, before: Bytes, chunk: Bytes, from: nat, to: nat)
    requires conns != [] && from <= to <= |chunk| && Flatten(conns) == before + chunk[..from]
    ensures Flatten(Accept(conns, chunk[from..to])) == before + chunk[..to]
  {
    var next := chunk[from..to];
    AcceptFlattens(conns, next);
    assert chunk[..from] + next == chunk[..to];
    assert before + chunk[..from] + next == before + (chunk[..from] + next);
  }

  /** A fresh connection has accepted nothing. */
  lemma SwapFlattens(conns: seq<Bytes>)
    ensures Flatten(conns + [[]]) == Flatten(conns)
  {
    FlattenAppend(conns, []);
  }

  /** What the attempts offer to take together. */
  function Takes(attempts: seq<Attempt>): nat {
    if attempts == [] then 0 else Takes(attempts[..|attempts| - 1]) + attempts[|attempts| - 1].takes
  }

  function Swaps(attempts: seq<Attempt>): nat {
    if attempts == [] then 0
    else Swaps(attempts[..|attempts| - 1]) + if attempts[|attempts| - 1].swapped then 1 else 0
  }

  function Min(a: nat, b: nat): nat {
    if a < b then a else b
  }

  /** How much of `n` bytes the attempts get written. */
  function Progress(n: nat, attempts: seq<Attempt>): (w: nat)
    ensures w <= n
  {
    Min(n, Takes(attempts))
  }

  /** Where the bytes go: each attempt's to the connection that is current after its swap. */
  function Placed(conns: seq<Bytes>, chunk: Bytes, attempts: seq<Attempt>): (r: seq<Bytes>)
    requires conns != []
    ensures r != []
  {
    if attempts == [] then conns
    else
      var init, last := attempts[..|attempts| - 1], attempts[|attempts| - 1];
      var base := Placed(conns, chunk, init);
      var current := if last.swapped then base + [[]] else base;
      ProgressGrows(|chunk|, attempts);
      Accept(current, chunk[Progress(|chunk|, init)..Progress(|chunk|, attempts)])
  }

  lemma ProgressGrows(n: nat, attempts: seq<Attempt>)
    ensures attempts != [] ==> Progress(n, attempts[..|attempts| - 1]) <= Progress(n, attempts)
  {
  }

  /** Each swap adds a connection, and the connections before the current one are untouched. */
  lemma {:induction false} PlacedCount(conns: seq<Bytes>, chunk: Bytes, attempts: seq<Attempt>)
    requires conns != []
    ensures |Placed(conns, chunk, attempts)| == |conns| + Swaps(attempts)
    ensures Placed(conns, chunk, attempts)[..|conns| - 1] == conns[..|conns| - 1]
    decreases |attempts|
  {
    if attempts != [] {
      PlacedCount(conns, chunk, attempts[..|attempts| - 1]);
    }
  }

  /** The bytes placed are the written prefix of the chunk, in order. */
  lemma {:induction false} PlacedIsWritten(conns: seq<Bytes>, chunk: Bytes, attempts: seq<Attempt>)
    requires conns != []
    ensures Flatten(Placed(conns, chunk, attempts)) == Flatten(conns) + chunk[..Progress(|chunk|, attempts)]
    decreases |attempts|
  {
    if attempts == [] {
      assert chunk[..0] == [] && Flatten(conns) + [] == Flatten(conns);
    } else {
      var init, swapped := attempts[..|attempts| - 1], attempts[|attempts| - 1].swapped;
      PlacedIsWritten(conns, chunk, init);
      ProgressGrows(|chunk|, attempts);
      PlaceNext(Placed(conns, chunk, init), Flatten(conns), chunk,
                Progress(|chunk|, init), Progress(|chunk|, attempts), swapped);
    }
  }

  lemma PlaceNext(base: seq<Bytes>, before: Bytes, chunk: Bytes, from: nat, to: nat, swapped: bool)
    requires base != [] && from <= to <= |chunk| && Flatten(base) == before + chunk[..from]
    ensures Flatten(Accept(if swapped then base + [[]] else base, chunk[from..to])) == before + chunk[..to]
  {
    SwapFlattens(base);
    AcceptNext(if swapped then base + [[]] else base, before, chunk, from, to);
  }

  /** The attempt fails on the last `rest` bytes and finds the context cancelled. */
  predicate Cancels(a: Attempt, rest: int) {
    a.cancelled && (a.fails || a.takes < rest)
  }

  /** The last of the attempts ends the relay. */
  predicate EndsRelay(n: nat, attempts: seq<Attempt>) {
    attempts != []
    && Cancels(attempts[|attempts| - 1], n - Progress(n, attempts[..|attempts| - 1]))
  }

  /** What the attempts from `next` to `k` have done to the chunk, none of them the last one needed before. */
  ghost predicate Tried(conns: seq<Bytes>, chunk: Bytes, attempts: seq<Attempt>, next: nat, k: nat,
                        conns': seq<Bytes>, written: nat) {
    && conns != [] && next <= k <= |attempts|
    && written == Progress(|chunk|, attempts[next..k])
    && conns' == Placed(conns, chunk, attempts[next..k])
    && forall j :: next <= j < k ==> Takes(attempts[next..j]) < |chunk| && !EndsRelay(|chunk|, attempts[next..j])
  }

  /** One more attempt. */
  lemma TriedNext(conns: seq<Bytes>, chunk: Bytes, attempts: seq<Attempt>, next: nat, k: nat,
                  conns': seq<Bytes>, written: nat)
    requires Tried(conns, chunk, attempts, next, k, conns', written) && k < |attempts| && written < |chunk|
    requires !EndsRelay(|chunk|, attempts[next..k])
    ensures var a, rest := attempts[k], |chunk| - written;
            var current, w := if a.swapped then conns' + [[]] else conns', if a.takes < rest then a.takes else rest;
            && Tried(conns, chunk, attempts, next, k + 1, Accept(current, chunk[written..written + w]), written + w)
            && (EndsRelay(|chunk|, attempts[next..k + 1]) <==> a.cancelled && (a.fails || w < rest))
  {
    UsedNext(attempts, next, k);
  }

  /** The write loop for one chunk, over the attempts from `next` on; it ends early when they run out. */
  method WriteChunk(conns: seq<Bytes>, chunk: Bytes, attempts: seq<Attempt>, next: nat)
    returns (conns': seq<Bytes>, written: nat, next': nat, stopped: bool)
    requires conns != [] && next <= |attempts|
    ensures next <= next' <= |attempts|
    ensures written == Progress(|chunk|, attempts[next..next'])
    ensures conns' == Placed(conns, chunk, attempts[next..next'])
    ensures stopped <==> EndsRelay(|chunk|, attempts[next..next'])
    ensures stopped || written == |chunk| || next' == |attempts|
    ensures forall k :: next <= k < next' ==>
              Takes(attempts[next..k]) < |chunk| && !EndsRelay(|chunk|, attempts[next..k])
    ensures Flatten(conns') == Flatten(conns) + chunk[..written]
    ensures |conns'| == |conns| + Swaps(attempts[next..next']) && conns'[..|conns| - 1] == conns[..|conns| - 1]
  {
    conns', written, next', stopped := conns, 0, next, false;
    assert attempts[next..next] == [];
    while written < |chunk| && next' < |attempts|
      invariant Tried(conns, chunk, attempts, next, next', conns', written)
      invariant !EndsRelay(|chunk|, attempts[next..next'])
      decreases |attempts| - next'
    {
      TriedNext(conns, chunk, attempts, next, next', conns', written);
      var a := attempts[next'];
      next' := next' + 1;
      if a.swapped {
        conns' := conns' + [[]];
      }
      var rest := |chunk| - written;
      var w := if a.takes < rest then a.takes else rest;
      var failed := a.fails || w < rest;
      conns' := Accept(conns', chunk[written..written + w]);
      written := written + w;
      if failed && a.cancelled {
        stopped := true;
        break;
      }
    }
    PlacedIsWritten(conns, chunk, attempts[next..next']);
    PlacedCount(conns, chunk, attempts[next..next']);
  }

  lemma UsedNext(attempts: seq<Attempt>, next: nat, k: nat)
    requires next <= k < |attempts|
    ensures var used := attempts[next..k + 1];
            && used != [] && used[..|used| - 1] == attempts[next..k] && used[|used| - 1] == attempts[k]
            && Takes(used) == Takes(attempts[next..k]) + attempts[k].takes
  {
    var used := attempts[next..k + 1];
    assert used[..|used| - 1] == attempts[next..k] && used[|used| - 1] == attempts[k];
  }

  /** The attempts from `next` on can be divided so that each chunk's share takes all of it. */
  ghost predicate Suffice(chunks: seq<Bytes>, attempts: seq<Attempt>, next: nat)
    requires next <= |attempts|
    decreases |chunks|
  {
    chunks == [] ||
    exists k :: next <= k <= |attempts| && Takes(attempts[next..k]) >= |chunks[0]| && Suffice(chunks[1..], attempts, k)
  }

  lemma {:induction false} TakesFromEarlier(attempts: seq<Attempt>, a: nat, b: nat, c: nat)
    requires a <= b <= c <= |attempts|
    ensures Takes(attempts[b..c]) <= Takes(attempts[a..c])
    decreases c - b
  {
    if b < c {
      UsedNext(attempts, a, c - 1);
      UsedNext(attempts, b, c - 1);
      TakesFromEarlier(attempts, a, b, c - 1);
    } else {
      assert attempts[b..c] == [];
    }
  }

  /** Starting earlier does not hurt. */
  lemma SufficeEarlier(chunks: seq<Bytes>, attempts: seq<Attempt>, a: nat, b: nat)
    requires a <= b <= |attempts| && Suffice(chunks, attempts, b)
    ensures Suffice(chunks, attempts, a)
  {
    if chunks != [] {
      var k :| b <= k <= |attempts| && Takes(attempts[b..k]) >= |chunks[0]| && Suffice(chunks[1..], attempts, k);
      TakesFromEarlier(attempts, a, b, k);
    }
  }

  /** Using no more attempts for the first chunk than needed is best. */
  lemma GreedyIsBest(chunks: seq<Bytes>, attempts: seq<Attempt>, next: nat, next': nat)
    requires chunks != [] && next <= next' <= |attempts|
    requires forall k :: next <= k < next' ==> Takes(attempts[next..k]) < |chunks[0]|
    requires Takes(attempts[next..next']) >= |chunks[0]| || next' == |attempts|
    ensures Suffice(chunks, attempts, next) <==>
            Takes(attempts[next..next']) >= |chunks[0]| && Suffice(chunks[1..], attempts, next')
  {
    if Suffice(chunks, attempts, next) {
      var k :| next <= k <= |attempts| && Takes(attempts[next..k]) >= |chunks[0]| && Suffice(chunks[1..], attempts, k);
      assert k >= next';
      SufficeEarlier(chunks[1..], attempts, next', k);
    }
  }

  /** The relay before chunk `done`, with the attempts from `next` on still to come. */
  ghost predicate Relaying(chunks: seq<Bytes>, attempts: seq<Attempt>, conns: seq<Bytes>, done: nat, next: nat) {
    && conns != [] && done <= |chunks| && next <= |attempts|
    && Flatten(conns) == Flatten(chunks[..done])
    && |conns| == 1 + Swaps(attempts[..next])
    && (Suffice(chunks, attempts, 0) <==> Suffice(chunks[done..], attempts, next))
  }

  /** The relay ended inside chunk `done`, with `written` of its bytes accepted. */
  ghost predicate EndedInside(chunks: seq<Bytes>, attempts: seq<Attempt>, conns: seq<Bytes>, done: nat, written: nat) {
    && done < |chunks| && written <= |chunks[done]|
    && Flatten(conns) == Flatten(chunks[..done]) + chunks[done][..written]
    && Flatten(conns) <= Flatten(chunks)
    && |conns| <= 1 + Swaps(attempts)
    && ((forall a :: a in attempts ==> !a.cancelled) ==> !Suffice(chunks, attempts, 0))
  }

  lemma SwapsWithin(attempts: seq<Attempt>, n: nat)
    requires n <= |attempts|
    ensures Swaps(attempts[..n]) <= Swaps(attempts)
  {
    SwapsSplit(attempts, n, |attempts|);
    assert attempts[..|attempts|] == attempts;
  }

  /** One chunk, written by the attempts from `next` to `next'`. */
  lemma RelayNext(chunks: seq<Bytes>, attempts: seq<Attempt>, conns: seq<Bytes>, done: nat, next: nat, next': nat)
    requires Relaying(chunks, attempts, conns, done, next) && done < |chunks| && next <= next' <= |attempts|
    requires forall k :: next <= k < next' ==> Takes(attempts[next..k]) < |chunks[done]|
    ensures var used := attempts[next..next'];
            var written, conns' := Progress(|chunks[done]|, used), Placed(conns, chunks[done], used);
            && (written == |chunks[done]| ==> Relaying(chunks, attempts, conns', done + 1, next'))
            && (EndsRelay(|chunks[done]|, used) || (written < |chunks[done]| && next' == |attempts|) ==>
                  EndedInside(chunks, attempts, conns', done, written))
  {
    var chunk, used := chunks[done], attempts[next..next'];
    var written := Progress(|chunk|, used);
    PlacedIsWritten(conns, chunk, used);
    PlacedCount(conns, chunk, used);
    SwapsSplit(attempts, next, next');
    SwapsWithin(attempts, next');
    RelayedIsPrefix(chunks, done, written);
    if EndsRelay(|chunk|, used) {
      assert used[|used| - 1] in attempts;
    }
    if written == |chunk| || next' == |attempts| {
      GreedyIsBest(chunks[done..], attempts, next, next');
    }
    if written == |chunk| {
      assert chunk[..written] == chunk && chunks[done..][1..] == chunks[done + 1..];
      FlattenAppend(chunks[..done], chunk);
      assert chunks[..done + 1] == chunks[..done] + [chunk];
    }
  }

  /**
   The relay over every chunk read from stdout: what the successive connections accepted
   concatenates to the completed chunks plus a prefix of the one in progress, for any schedule of
   partial writes, errors, connection swaps and cancellation. Unless it is cancelled, the relay
   completes every chunk exactly when the attempts can take them all.
   */
  method Relay(chunks: seq<Bytes>, attempts: seq<Attempt>) returns (conns: seq<Bytes>, done: nat, written: nat)
    ensures done <= |chunks|
    ensures done == |chunks| ==> Flatten(conns) == Flatten(chunks)
    ensures done < |chunks| ==> written <= |chunks[done]|
                                && Flatten(conns) == Flatten(chunks[..done]) + chunks[done][..written]
    ensures Flatten(conns) <= Flatten(chunks)
    ensures |conns| <= 1 + Swaps(attempts)
    ensures (forall a :: a in attempts ==> !a.cancelled) ==> (done == |chunks| <==> Suffice(chunks, attempts, 0))
  {
    conns, done, written := [[]], 0, 0;
    var next, stopped := 0, false;
    assert chunks[0..] == chunks && attempts[..0] == [] && chunks[..0] == [];
    while done < |chunks|
      invariant Relaying(chunks, attempts, conns, done, next)
    {
      ghost var before, first := conns, next;
      conns, written, next, stopped := WriteChunk(conns, chunks[done], attempts, next);
      RelayNext(chunks, attempts, before, done, first, next);
      if stopped || written < |chunks[done]| {
        assert EndedInside(chunks, attempts, conns, done, written);
        return;
      }
      done := done + 1;
    }
    assert chunks[..|chunks|] == chunks;
    SwapsWithin(attempts, next);
  }

  lemma {:induction false} SwapsSplit(attempts: seq<Attempt>, a: nat, b: nat)
    requires a <= b <= |attempts|
    ensures Swaps(attempts[..b]) == Swaps(attempts[..a]) + Swaps(attempts[a..b])
    decreases b
  {
    if a < b {
      SwapsSplit(attempts, a, b - 1);
      assert attempts[..b][..b - 1] == attempts[..b - 1];
      assert attempts[a..b][..b - a - 1] == attempts[a..b - 1];
    } else {
      assert attempts[a..b] == [];
    }
  }

  /** Completed chunks plus a prefix of the next one are a prefix of the whole output. */
  lemma {:induction false} RelayedIsPrefix(chunks: seq<Bytes>, done: nat, written: nat)
    requires done < |chunks| && written <= |chunks[done]|
    ensures Flatten(chunks[..done]) + chunks[done][..written] <= Flatten(chunks)
    decreases |chunks|
  {
    var n := |chunks| - 1;
    if done < n {
      RelayedIsPrefix(chunks[..n], done, written);
      assert chunks[..n][..done] == chunks[..done];
    }
  }
}
