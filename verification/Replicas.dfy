/**
 Read replicas: the active ones, round-robin choice among them, and reads that retry on their
 replica with exponential backoff before they fall back to the primary.
 */
module Replicas {
  import opened Wrappers
  import opened ModularArithmetic

  datatype Status = Status(enabled: bool, healthy: bool)

  predicate IsActive(statuses: seq<Status>, i: int) {
    0 <= i < |statuses| && statuses[i].enabled && statuses[i].healthy
  }

  /** The indices of the enabled and healthy replicas, in order. */
  function ActiveIndices(statuses: seq<Status>): (r: seq<nat>)
    ensures forall i: nat :: i in r <==> IsActive(statuses, i)
    ensures forall i, j :: 0 <= i < j < |r| ==> r[i] < r[j]
  {
    if |statuses| == 0 then []
    else
      var last := |statuses| - 1;
      var before := ActiveIndices(statuses[..last]);
      if statuses[last].enabled && statuses[last].healthy then
        assert forall i :: 0 <= i < |before| ==> IsActive(statuses[..last], before[i]);
        before + [last]
      else before
  }

  /** The choice made `k` calls after the index was `start`. */
  function Choice(active: seq<nat>, start: nat, k: nat): nat
    requires |active| > 0
  {
    active[(start + k) % |active|]
  }

  /** How often `m` consecutive calls choose replica `r`. */
  function Picks(active: seq<nat>, start: nat, m: nat, r: nat): nat
    requires |active| > 0
  {
    if m == 0 then 0 else Picks(active, start, m - 1, r) + if Choice(active, start, m - 1) == r then 1 else 0
  }

  /** m/n rounded down or up. */
  predicate FairShare(count: int, m: nat, n: nat)
    requires n > 0
  {
    count == m / n || count == (m + n - 1) / n
  }

  function Pow2(n: nat): nat { if n == 0 then 1 else 2 * Pow2(n - 1) }

  /** What a read did: tries on its replica, milliseconds waited, and whether the primary was asked. */
  datatype Read = Read(replica: Option<nat>, tries: nat, backoff: int, primary: bool)

  class ReplicaRouter {
    var statuses: seq<Status>
    var replicaIndex: nat

    constructor (n: nat)
      ensures replicaIndex == 0 && statuses == seq(n, _ => Status(true, true))
    {
      statuses, replicaIndex := seq(n, _ => Status(true, true)), 0;
    }

    method GetNextReplica() returns (r: Option<nat>)
      modifies this`replicaIndex
      ensures ActiveIndices(statuses) == [] <==> r.None?
      ensures r.None? ==> replicaIndex == old(replicaIndex)
      ensures r.Some? ==> replicaIndex == old(replicaIndex) + 1
      ensures r.Some? ==>
                r.value == Choice(ActiveIndices(statuses), old(replicaIndex), 0) && IsActive(statuses, r.value)
    {
      var active := ActiveIndices(statuses);
      if |active| == 0 {
        return None;
      }
      var selected := active[replicaIndex % |active|];
      replicaIndex := replicaIndex + 1;
      r := Some(selected);
    }

    /** Calls GetNextReplica `m` times: every active replica is chosen floor(m/n) or ceil(m/n) times, no other one. */
    method ChooseRepeatedly(m: nat) returns (choices: seq<nat>)
      requires ActiveIndices(statuses) != []
      modifies this`replicaIndex
      ensures |choices| == m && replicaIndex == old(replicaIndex) + m
      ensures forall r :: multiset(choices)[r] == Picks(ActiveIndices(statuses), old(replicaIndex), m, r)
      ensures forall r :: !IsActive(statuses, r) ==> r !in choices
      ensures forall r :: IsActive(statuses, r) ==> FairShare(multiset(choices)[r], m, |ActiveIndices(statuses)|)
    {
      choices := [];
      ghost var active, start := ActiveIndices(statuses), replicaIndex;
      for i := 0 to m
        invariant |choices| == i && replicaIndex == start + i
        invariant forall r :: multiset(choices)[r] == Picks(active, start, i, r)
        invariant forall r :: !IsActive(statuses, r) ==> r !in choices
      {
        var choice := GetNextReplica();
        assert choice.value == Choice(active, start, i);
        choices := choices + [choice.value];
      }
      forall r | IsActive(statuses, r)
        ensures FairShare(multiset(choices)[r], m, |active|)
      {
        RoundRobinFair(statuses, start, m, r);
      }
    }

    /**
     One read. `attempts` is the configured number of retries and `succeeds(i)` whether the i-th
     try on the replica works. The first success ends it; after `attempts + 1` failures, and
     `base * (2^attempts - 1)` milliseconds of waiting, the primary is asked once.
     */
    method QueryRead(attempts: int, base: int, succeeds: nat -> bool) returns (read: Read)
      modifies this`replicaIndex
      ensures read.replica.None? <==> ActiveIndices(statuses) == []
      ensures read.replica.None? ==> read == Read(None, 0, 0, true) && replicaIndex == old(replicaIndex)
      ensures read.replica.Some? ==> replicaIndex == old(replicaIndex) + 1 && IsActive(statuses, read.replica.value)
      ensures read.replica.Some? ==> read.replica.value == Choice(ActiveIndices(statuses), old(replicaIndex), 0)
      ensures read.replica.Some? && !read.primary ==>
                && 1 <= read.tries <= attempts + 1 && succeeds(read.tries - 1)
                && (forall i: nat :: i < read.tries - 1 ==> !succeeds(i))
                && read.backoff == base * (Pow2(read.tries - 1) - 1)
      ensures read.replica.Some? && read.primary ==>
                && read.tries == (if attempts < 0 then 0 else attempts + 1)
                && (forall i: nat :: i <= attempts ==> !succeeds(i))
                && (attempts >= 0 ==> read.backoff == base * (Pow2(attempts) - 1))
    {
      var replica := GetNextReplica();
      if replica.None? {
        return Read(None, 0, 0, true);
      }
      var attempt, waited := 0, 0;
      while attempt <= attempts
        invariant 0 <= attempt && (attempts >= 0 ==> attempt <= attempts + 1) && (attempts < 0 ==> attempt == 0)
        invariant forall i: nat :: i < attempt ==> !succeeds(i)
        invariant waited == base * (Pow2(if attempt <= attempts || attempt == 0 then attempt else attempts) - 1)
        decreases attempts + 1 - attempt
      {
        if succeeds(attempt) {
          return Read(replica, attempt + 1, waited, false);
        }
        if attempt < attempts {
          assert base * (Pow2(attempt + 1) - 1) == base * (Pow2(attempt) - 1) + base * Pow2(attempt);
          waited := waited + base * Pow2(attempt);
        }
        attempt := attempt + 1;
      }
      read := Read(replica, attempt, waited, true);
    }
  }

  // ----- fairness

  lemma DivUnique(x: int, q: int, t: int, n: nat)
    requires x == q * n + t && 0 <= t < n
    ensures x / n == q && x % n == t
  {
    assert x == (x / n) * n + x % n;
    QuotientUnique(q, t, x / n, x % n, n);
  }

  /** How many numbers below `x` leave remainder `j`. */
  function Below(x: nat, n: nat, j: nat): nat
    requires n > 0
  {
    x / n + if x % n > j then 1 else 0
  }

  lemma BelowStep(x: nat, n: nat, j: nat)
    requires j < n
    ensures Below(x + 1, n, j) == Below(x, n, j) + if x % n == j then 1 else 0
  {
    var q, t := x / n, x % n;
    assert x == q * n + t;
    if t + 1 < n {
      DivUnique(x + 1, q, t + 1, n);
    } else {
      assert (q + 1) * n == q * n + n;
      DivUnique(x + 1, q + 1, 0, n);
    }
  }

  lemma {:induction false} PicksAreBelow(active: seq<nat>, start: nat, m: nat, j: nat)
    requires j < |active| && forall a, b :: 0 <= a < b < |active| ==> active[a] < active[b]
    ensures Picks(active, start, m, active[j]) == Below(start + m, |active|, j) - Below(start, |active|, j)
    decreases m
  {
    if m > 0 {
      PicksAreBelow(active, start, m - 1, j);
      BelowStep(start + m - 1, |active|, j);
    }
  }

  /** The count differs from `m / n` by less than one turn. */
  lemma WithinOneTurn(s: nat, m: nat, n: nat, j: nat)
    requires j < n
    ensures var c := Below(s + m, n, j) - Below(s, n, j); m - n < c * n < m + n
  {
    var a, b, c, d := s / n, s % n, (s + m) / n, (s + m) % n;
    assert s == a * n + b && s + m == c * n + d;
    assert (c - a) * n == c * n - a * n;
    assert (c - a + 1) * n == (c - a) * n + n && (c - a - 1) * n == (c - a) * n - n;
  }

  lemma FloorOrCeil(c: int, m: nat, n: nat)
    requires n > 0 && m - n < c * n < m + n
    ensures c == m / n || c == (m + n - 1) / n
  {
    if c * n <= m {
      DivUnique(m, c, m - c * n, n);
    } else {
      DivUnique(m + n - 1, c, m + n - 1 - c * n, n);
    }
  }

  /**
   Fairness: from any starting index, any `m` consecutive choices among `n` active replicas pick
   each of them floor(m/n) or ceil(m/n) times.
   */
  lemma {:induction false} RoundRobinFair(statuses: seq<Status>, start: nat, m: nat, r: nat)
    requires IsActive(statuses, r)
    ensures var active := ActiveIndices(statuses);
            |active| > 0 && FairShare(Picks(active, start, m, r), m, |active|)
  {
    var active := ActiveIndices(statuses);
    assert r in active;
    var j :| 0 <= j < |active| && active[j] == r;
    PicksAreBelow(active, start, m, j);
    WithinOneTurn(start, m, |active|, j);
    FloorOrCeil(Picks(active, start, m, r), m, |active|);
  }

  /** An inactive replica is never picked. */
  lemma {:induction false} InactiveNeverPicked(statuses: seq<Status>, start: nat, m: nat, r: nat)
    requires !IsActive(statuses, r) && |ActiveIndices(statuses)| > 0
    ensures Picks(ActiveIndices(statuses), start, m, r) == 0
    decreases m
  {
    if m > 0 {
      InactiveNeverPicked(statuses, start, m - 1, r);
      assert Choice(ActiveIndices(statuses), start, m - 1) in ActiveIndices(statuses);
    }
  }
}
