/**
 * Replay bookkeeping: a counter per request, where a request that was never
 * marked counts as 0, and the aggregate total of all counters.
 */
module PlayCounts {

  /** The counter of `request`, 0 when it was never marked. */
  function CountIn<Req>(counts: map<Req, nat>, request: Req): nat
  {
    if request in counts then counts[request] else 0
  }

  /** The sum of all counters. */
  ghost function SumCounts<Req>(counts: map<Req, nat>): nat
    decreases |counts|
  {
    if counts == map[] then 0
    else
      var k :| k in counts;
      assert |counts - {k}| < |counts| by {
        assert (counts - {k}).Keys == counts.Keys - {k};
      }
      counts[k] + SumCounts(counts - {k})
  }

  /** The sum can be taken apart at any key, not only the one its definition picks. */
  lemma {:induction false} SumCountsRemove<Req>(counts: map<Req, nat>, k: Req)
    requires k in counts
    ensures SumCounts(counts) == counts[k] + SumCounts(counts - {k})
    decreases |counts|
  {
    var j :| j in counts && SumCounts(counts) == counts[j] + SumCounts(counts - {j});
    if j != k {
      var both := counts - {j} - {k};
      assert (counts - {j}).Keys == counts.Keys - {j};
      assert (counts - {k}).Keys == counts.Keys - {k};
      SumCountsRemove(counts - {j}, k);
      SumCountsRemove(counts - {k}, j);
      assert counts - {j} - {k} == counts - {k} - {j};
    }
  }

  /** Setting one counter to `v` moves the total by `v` minus that counter's old value. */
  lemma SumCountsUpdate<Req>(counts: map<Req, nat>, k: Req, v: nat)
    ensures SumCounts(counts[k := v]) + CountIn(counts, k) == SumCounts(counts) + v
  {
    var updated := counts[k := v];
    SumCountsRemove(updated, k);
    assert updated - {k} == counts - {k};
    if k in counts {
      SumCountsRemove(counts, k);
    } else {
      assert counts - {k} == counts;
    }
  }

  /** Counters that are all zero sum to zero. */
  lemma {:induction false} SumCountsZero<Req>(counts: map<Req, nat>)
    requires forall k :: k in counts ==> counts[k] == 0
    ensures SumCounts(counts) == 0
    decreases |counts|
  {
    if counts != map[] {
      var k :| k in counts;
      SumCountsRemove(counts, k);
      assert (counts - {k}).Keys == counts.Keys - {k};
      SumCountsZero(counts - {k});
    }
  }

  /** Each counter equals the number of times its request occurs in `history`. */
  ghost predicate Tallies<Req>(counts: map<Req, nat>, history: seq<Req>)
  {
    && (forall r | r in counts :: counts[r] == multiset(history)[r])
    && (forall r | r in history :: r in counts)
  }

  /** Tallying counters give every request, marked or not, its number of occurrences. */
  lemma TalliesAt<Req>(counts: map<Req, nat>, history: seq<Req>, r: Req)
    requires Tallies(counts, history)
    ensures CountIn(counts, r) == multiset(history)[r]
  {
  }

  /** Counters that tally a history sum to the length of that history. */
  lemma {:induction false} TalliesSum<Req>(counts: map<Req, nat>, history: seq<Req>)
    requires Tallies(counts, history)
    ensures SumCounts(counts) == |history|
    decreases |history|
  {
    if history == [] {
      SumCountsZero(counts);
    } else {
      var last := history[|history| - 1];
      var front := history[..|history| - 1];
      assert history == front + [last];
      assert multiset(history) == multiset(front) + multiset{last};
      var before := counts[last := CountIn(counts, last) - 1];
      TalliesAt(counts, history, last);
      forall r | r in before
        ensures before[r] == multiset(front)[r]
      {
        TalliesAt(counts, history, r);
      }
      TalliesSum(before, front);
      SumCountsUpdate(counts, last, CountIn(counts, last) - 1);
    }
  }

  /** Bumping one counter by one tallies the history extended by that request. */
  lemma TalliesMark<Req>(counts: map<Req, nat>, history: seq<Req>, request: Req)
    requires Tallies(counts, history)
    ensures Tallies(counts[request := CountIn(counts, request) + 1], history + [request])
  {
  }
}
