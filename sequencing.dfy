/** Per-NSID sequence counters as `MemoryStorage.next_seq` keeps them: a map
    from NSID to the next number to hand out, where an NSID not in the map
    starts at 1. Sequence numbers must be monotonically increasing positive
    integers per NSID, with gaps allowed (the event-stream sequence-number
    rule of the AT Protocol). */
module Sequencing {

  /** The number `next_seq(nsid)` hands out next: `setdefault(nsid, 1)`. */
  function NextFor(counters: map<string, nat>, nsid: string): nat
  {
    if nsid in counters then counters[nsid] else 1
  }

  /** Every stored counter is positive. */
  ghost predicate Positive(counters: map<string, nat>)
  {
    forall n :: n in counters ==> counters[n] >= 1
  }

  /** The counters after one `next_seq(nsid)`: that NSID's counter moves one
      past the number handed out, and no other counter changes. */
  function Bump(counters: map<string, nat>, nsid: string): (r: map<string, nat>)
    ensures NextFor(r, nsid) == NextFor(counters, nsid) + 1
    ensures forall other :: other != nsid ==> NextFor(r, other) == NextFor(counters, other)
    ensures Positive(counters) ==> Positive(r)
  {
    counters[nsid := NextFor(counters, nsid) + 1]
  }

  /** Every NSID of a series is non-empty, as `next_seq` asserts of each call. */
  predicate AllNamed(nsids: seq<string>)
  {
    forall k :: 0 <= k < |nsids| ==> nsids[k] != ""
  }

  /** The numbers handed out by successive `next_seq` calls for `nsids`. */
  function Run(counters: map<string, nat>, nsids: seq<string>): (r: seq<nat>)
    requires AllNamed(nsids)
    ensures |r| == |nsids|
    decreases |nsids|
  {
    if nsids == [] then []
    else [NextFor(counters, nsids[0])] + Run(Bump(counters, nsids[0]), nsids[1..])
  }

  /** Counters never go down, so every number handed out for an NSID is at
      least that NSID's counter before the run. */
  lemma {:induction false} RunAtLeastStart(counters: map<string, nat>, nsids: seq<string>, i: nat)
    requires AllNamed(nsids) && i < |nsids|
    ensures Run(counters, nsids)[i] >= NextFor(counters, nsids[i])
    decreases i
  {
    if i > 0 {
      RunAtLeastStart(Bump(counters, nsids[0]), nsids[1..], i - 1);
    }
  }

  /** Every number handed out is positive. */
  lemma {:induction false} RunPositive(counters: map<string, nat>, nsids: seq<string>, i: nat)
    requires AllNamed(nsids) && Positive(counters) && i < |nsids|
    ensures Run(counters, nsids)[i] >= 1
  {
    RunAtLeastStart(counters, nsids, i);
  }

  /** Numbers for one NSID strictly increase along the run, so none is
      handed out twice. */
  lemma {:induction false} RunStrictlyIncreasing(counters: map<string, nat>, nsids: seq<string>, i: nat, j: nat)
    requires AllNamed(nsids) && i < j < |nsids| && nsids[i] == nsids[j]
    ensures Run(counters, nsids)[i] < Run(counters, nsids)[j]
    decreases i
  {
    var next := Bump(counters, nsids[0]);
    if i == 0 {
      RunAtLeastStart(next, nsids[1..], j - 1);
    } else {
      RunStrictlyIncreasing(next, nsids[1..], i - 1, j - 1);
    }
  }

  /** A call whose NSID was not used earlier in the series gets that NSID's
      counter from before the series. */
  lemma {:induction false} RunFirstUse(counters: map<string, nat>, nsids: seq<string>, j: nat)
    requires AllNamed(nsids) && j < |nsids| && forall k :: 0 <= k < j ==> nsids[k] != nsids[j]
    ensures Run(counters, nsids)[j] == NextFor(counters, nsids[j])
    decreases j
  {
    if j > 0 {
      RunFirstUse(Bump(counters, nsids[0]), nsids[1..], j - 1);
    }
  }

  /** Each later call for an NSID returns exactly one more than the previous
      call for that NSID, whatever other NSIDs are used in between. */
  lemma {:induction false} RunNextIsOneMore(counters: map<string, nat>, nsids: seq<string>, i: nat, j: nat)
    requires AllNamed(nsids) && i < j < |nsids| && nsids[i] == nsids[j]
    requires forall k :: i < k < j ==> nsids[k] != nsids[i]
    ensures Run(counters, nsids)[j] == Run(counters, nsids)[i] + 1
    decreases i
  {
    var next := Bump(counters, nsids[0]);
    if i == 0 {
      RunFirstUse(next, nsids[1..], j - 1);
    } else {
      RunNextIsOneMore(next, nsids[1..], i - 1, j - 1);
    }
  }

  /** The sequence of `count` copies of `nsid`. */
  function Repeat(nsid: string, count: nat): (r: seq<string>)
    ensures |r| == count && forall i :: 0 <= i < count ==> r[i] == nsid
  {
    if count == 0 then [] else [nsid] + Repeat(nsid, count - 1)
  }

  /** Repeated calls for one NSID hand out consecutive numbers from its
      current counter, with no gap. */
  lemma {:induction false} RunRepeatConsecutive(counters: map<string, nat>, nsid: string, count: nat, i: nat)
    requires nsid != "" && i < count
    ensures Run(counters, Repeat(nsid, count))[i] == NextFor(counters, nsid) + i
    decreases i
  {
    var nsids := Repeat(nsid, count);
    assert nsids[1..] == Repeat(nsid, count - 1);
    if i > 0 {
      RunRepeatConsecutive(Bump(counters, nsid), nsid, count - 1, i - 1);
    }
  }

  /** For an NSID seen for the first time, the calls return 1, 2, 3, ... */
  lemma FreshNsidCountsFromOne(counters: map<string, nat>, nsid: string, count: nat, i: nat)
    requires nsid != "" && nsid !in counters && i < count
    ensures Run(counters, Repeat(nsid, count))[i] == i + 1
  {
    RunRepeatConsecutive(counters, nsid, count, i);
  }
}
