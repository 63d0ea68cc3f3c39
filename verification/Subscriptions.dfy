/**
 Per-user limits on GraphQL subscriptions: counts and memory estimates per user, leases whose
 release works once, and the iterator wrapper that releases when a subscription ends.
 */
module Subscriptions {
  import opened Wrappers

  /** A lease is the closure `acquire` returns, with its captured user, estimate and flag. */
  datatype Lease = Lease(user: string, estimate: int, released: bool)

  datatype Manager = Manager(counts: map<string, int>, memory: map<string, int>, leases: seq<Lease>)

  const EMPTY := Manager(map[], map[], [])

  function Count(m: Manager, user: string): int { if user in m.counts then m.counts[user] else 0 }

  function MemoryOf(m: Manager, user: string): int { if user in m.memory then m.memory[user] else 0 }

  function Acquire(m: Manager, cap: int, user: string, estimate: int): Result<Manager> {
    if Count(m, user) >= cap then Thrown("SUBSCRIPTION_LIMIT_EXCEEDED")
    else Ok(Manager(m.counts[user := Count(m, user) + 1], m.memory[user := MemoryOf(m, user) + estimate],
                    m.leases + [Lease(user, estimate, false)]))
  }

  function Release(m: Manager, lease: nat): Manager
    requires lease < |m.leases|
  {
    var l := m.leases[lease];
    if l.released then m
    else
      var leases := m.leases[lease := l.(released := true)];
      if Count(m, l.user) <= 1 then Manager(m.counts - {l.user}, m.memory - {l.user}, leases)
      else
        var left := MemoryOf(m, l.user) - l.estimate;
        Manager(m.counts[l.user := Count(m, l.user) - 1], m.memory[l.user := if left > 0 then left else 0], leases)
  }

  class ConnectionLimitManager {
    const cap: int
    var counts: map<string, int>
    var memoryEstimateBytes: map<string, int>
    var leases: seq<Lease>

    function View(): Manager
      reads this
    {
      Manager(counts, memoryEstimateBytes, leases)
    }

    constructor (cap: int)
      ensures this.cap == cap && View() == EMPTY
    {
      this.cap, counts, memoryEstimateBytes, leases := cap, map[], map[], [];
    }

    method AcquireLease(user: string, estimate: int) returns (r: Result<nat>)
      modifies this
      ensures r.Ok? <==> Acquire(old(View()), cap, user, estimate).Ok?
      ensures r.Ok? ==> r.value == |old(leases)| && Ok(View()) == Acquire(old(View()), cap, user, estimate)
      ensures r.Thrown? ==> View() == old(View())
    {
      var current := if user in counts then counts[user] else 0;
      if current >= cap {
        return Thrown("SUBSCRIPTION_LIMIT_EXCEEDED");
      }
      counts := counts[user := current + 1];
      var totalMem := (if user in memoryEstimateBytes then memoryEstimateBytes[user] else 0) + estimate;
      memoryEstimateBytes := memoryEstimateBytes[user := totalMem];
      leases := leases + [Lease(user, estimate, false)];
      r := Ok(|leases| - 1);
    }

    method ReleaseLease(lease: nat)
      requires lease < |leases|
      modifies this
      ensures View() == Release(old(View()), lease)
    {
      var l := leases[lease];
      if l.released {
        return;
      }
      leases := leases[lease := l.(released := true)];
      var count := if l.user in counts then counts[l.user] else 0;
      if count <= 1 {
        counts := counts - {l.user};
        memoryEstimateBytes := memoryEstimateBytes - {l.user};
      } else {
        counts := counts[l.user := count - 1];
        var left := (if l.user in memoryEstimateBytes then memoryEstimateBytes[l.user] else 0) - l.estimate;
        memoryEstimateBytes := memoryEstimateBytes[l.user := if left > 0 then left else 0];
      }
    }

    /** The sum of all counts; under the invariant it is the number of outstanding leases. */
    method Total() returns (total: int)
      ensures Accurate(View()) ==> total == OutstandingTotal(leases)
    {
      total := 0;
      var todo := counts.Keys;
      assert counts.Keys - todo == {};
      NoUsers(leases);
      while todo != {}
        invariant todo <= counts.Keys
        invariant Accurate(View()) ==> total == OutstandingOf(leases, counts.Keys - todo)
        decreases |todo|
      {
        var user :| user in todo;
        assert Accurate(View()) ==> AccurateFor(View(), user);
        total := total + counts[user];
        OneMoreUser(leases, counts.Keys - todo, user);
        assert counts.Keys - todo + {user} == counts.Keys - (todo - {user});
        todo := todo - {user};
      }
      assert counts.Keys - {} == counts.Keys;
      if Accurate(View()) {
        AllUsersCounted(View());
      }
    }
  }

  /** The wrapper around a subscription's iterator: any way of ending it calls release. */
  class ReleasingIterator {
    const manager: ConnectionLimitManager
    const lease: nat

    constructor (manager: ConnectionLimitManager, lease: nat)
      ensures this.manager == manager && this.lease == lease
    {
      this.manager, this.lease := manager, lease;
    }

    /** A failing `next` releases and rethrows; a succeeding one changes nothing. */
    method Next(fails: bool) returns (r: Result<bool>)
      requires lease < |manager.leases|
      modifies manager
      ensures manager.View() == if fails then Release(old(manager.View()), lease) else old(manager.View())
      ensures r.Thrown? <==> fails
    {
      if fails {
        manager.ReleaseLease(lease);
        return Thrown("next failed");
      }
      r := Ok(true);
    }

    /** `return` and `throw` release before they reach the inner iterator. */
    method Finish()
      requires lease < |manager.leases|
      modifies manager
      ensures manager.View() == Release(old(manager.View()), lease)
    {
      manager.ReleaseLease(lease);
    }
  }

  // ----- outstanding leases

  predicate Out(l: Lease, user: string) { !l.released && l.user == user }

  function Outstanding(leases: seq<Lease>, user: string): nat {
    if |leases| == 0 then 0
    else Outstanding(leases[..|leases| - 1], user) + if Out(leases[|leases| - 1], user) then 1 else 0
  }

  function OutstandingMemory(leases: seq<Lease>, user: string): int {
    if |leases| == 0 then 0
    else OutstandingMemory(leases[..|leases| - 1], user) +
         if Out(leases[|leases| - 1], user) then leases[|leases| - 1].estimate else 0
  }

  function OutstandingOf(leases: seq<Lease>, users: set<string>): nat {
    if |leases| == 0 then 0
    else OutstandingOf(leases[..|leases| - 1], users) +
         if !leases[|leases| - 1].released && leases[|leases| - 1].user in users then 1 else 0
  }

  function OutstandingTotal(leases: seq<Lease>): nat {
    if |leases| == 0 then 0
    else OutstandingTotal(leases[..|leases| - 1]) + if leases[|leases| - 1].released then 0 else 1
  }

  lemma {:induction false} ReleaseOne(leases: seq<Lease>, i: nat, user: string)
    requires i < |leases| && !leases[i].released
    ensures var after := leases[i := leases[i].(released := true)];
            && Outstanding(leases, user) == Outstanding(after, user) + (if leases[i].user == user then 1 else 0)
            && OutstandingMemory(leases, user) == OutstandingMemory(after, user) +
              (if leases[i].user == user then leases[i].estimate else 0)
    decreases |leases|
  {
    var after := leases[i := leases[i].(released := true)];
    var last := |leases| - 1;
    if i == last {
      assert after[..last] == leases[..last];
    } else {
      ReleaseOne(leases[..last], i, user);
      assert after[..last] == leases[..last][i := leases[i].(released := true)];
    }
  }

  lemma {:induction false} OneMoreUser(leases: seq<Lease>, users: set<string>, user: string)
    requires user !in users
    ensures OutstandingOf(leases, users + {user}) == OutstandingOf(leases, users) + Outstanding(leases, user)
    decreases |leases|
  {
    if |leases| > 0 { OneMoreUser(leases[..|leases| - 1], users, user); }
  }

  lemma {:induction false} NoUsers(leases: seq<Lease>)
    ensures OutstandingOf(leases, {}) == 0
    decreases |leases|
  {
    if |leases| > 0 { NoUsers(leases[..|leases| - 1]); }
  }

  lemma {:induction false} NobodyElse(leases: seq<Lease>, users: set<string>)
    requires forall i :: 0 <= i < |leases| && !leases[i].released ==> leases[i].user in users
    ensures OutstandingOf(leases, users) == OutstandingTotal(leases)
    decreases |leases|
  {
    if |leases| > 0 { NobodyElse(leases[..|leases| - 1], users); }
  }

  lemma {:induction false} OutstandingMember(leases: seq<Lease>, i: nat)
    requires i < |leases| && !leases[i].released
    ensures Outstanding(leases, leases[i].user) > 0
    decreases |leases|
  {
    if i < |leases| - 1 { OutstandingMember(leases[..|leases| - 1], i); }
  }

  lemma {:induction false} NonNegativeMemory(leases: seq<Lease>, user: string)
    requires forall i :: 0 <= i < |leases| ==> leases[i].estimate >= 0
    ensures OutstandingMemory(leases, user) >= 0
    ensures Outstanding(leases, user) == 0 ==> OutstandingMemory(leases, user) == 0
    decreases |leases|
  {
    if |leases| > 0 { NonNegativeMemory(leases[..|leases| - 1], user); }
  }

  lemma AllUsersCounted(m: Manager)
    requires Accurate(m)
    ensures OutstandingOf(m.leases, m.counts.Keys) == OutstandingTotal(m.leases)
  {
    forall i | 0 <= i < |m.leases| && !m.leases[i].released
      ensures m.leases[i].user in m.counts.Keys
    {
      OutstandingMember(m.leases, i);
      assert AccurateFor(m, m.leases[i].user);
    }
    NobodyElse(m.leases, m.counts.Keys);
  }

  // ----- what every run keeps

  /** A user has an entry exactly while leases are outstanding, and the entry counts them. */
  ghost predicate AccurateFor(m: Manager, user: string) {
    && Count(m, user) == Outstanding(m.leases, user)
    && (user in m.counts <==> Outstanding(m.leases, user) > 0)
    && (user in m.memory <==> user in m.counts)
  }

  ghost predicate Accurate(m: Manager) { forall user :: AccurateFor(m, user) }

  ghost predicate MemoryExact(m: Manager) {
    forall user :: MemoryOf(m, user) == OutstandingMemory(m.leases, user)
  }

  ghost predicate WithinCap(m: Manager, cap: int) {
    forall user :: Outstanding(m.leases, user) == 0 || Outstanding(m.leases, user) <= cap
  }

  datatype Action =
    | Subscribe(user: string, estimate: int)
    | CallRelease(lease: nat)
    | NextFails(lease: nat)
    | CallReturn(lease: nat)
    | CallThrow(lease: nat)

  function Apply(m: Manager, cap: int, a: Action): Manager {
    match a
    case Subscribe(user, estimate) =>
      (match Acquire(m, cap, user, estimate)
       case Ok(m') => m'
       case Thrown(_) => m)
    case _ => if a.lease < |m.leases| then Release(m, a.lease) else m
  }

  lemma AcquireKeeps(m: Manager, cap: int, user: string, estimate: int)
    requires Accurate(m) && WithinCap(m, cap) && Acquire(m, cap, user, estimate).Ok?
    ensures var m' := Acquire(m, cap, user, estimate).value;
            Accurate(m') && WithinCap(m', cap) && (MemoryExact(m) ==> MemoryExact(m'))
  {
    var m' := Acquire(m, cap, user, estimate).value;
    assert m'.leases[..|m'.leases| - 1] == m.leases;
    forall u
      ensures AccurateFor(m', u) && (Outstanding(m'.leases, u) == 0 || Outstanding(m'.leases, u) <= cap)
      ensures MemoryExact(m) ==> MemoryOf(m', u) == OutstandingMemory(m'.leases, u)
    {
      assert AccurateFor(m, u);
    }
  }

  lemma ReleaseKeeps(m: Manager, cap: int, lease: nat)
    requires Accurate(m) && WithinCap(m, cap) && lease < |m.leases|
    ensures Accurate(Release(m, lease)) && WithinCap(Release(m, lease), cap)
  {
    if !m.leases[lease].released {
      var m' := Release(m, lease);
      forall u
        ensures AccurateFor(m', u) && (Outstanding(m'.leases, u) == 0 || Outstanding(m'.leases, u) <= cap)
      {
        assert AccurateFor(m, u) && AccurateFor(m, m.leases[lease].user);
        ReleaseOne(m.leases, lease, u);
      }
    }
  }

  /** What is left of a user's estimates once a lease is gone. */
  function LeftAfter(m: Manager, lease: nat): int
    requires lease < |m.leases|
  {
    OutstandingMemory(m.leases[lease := m.leases[lease].(released := true)], m.leases[lease].user)
  }

  /**
   Releasing a lease keeps the memory figure exact exactly when the estimates left outstanding
   do not sum below zero (and are zero when none is left).
   */
  lemma MemoryStaysExactExactly(m: Manager, lease: nat)
    requires Accurate(m) && MemoryExact(m) && lease < |m.leases| && !m.leases[lease].released
    ensures MemoryExact(Release(m, lease)) <==>
            if Outstanding(m.leases, m.leases[lease].user) == 1 then LeftAfter(m, lease) == 0
            else LeftAfter(m, lease) >= 0
  {
    var m', l := Release(m, lease), m.leases[lease];
    assert AccurateFor(m, l.user);
    assert MemoryOf(m, l.user) == OutstandingMemory(m.leases, l.user);
    ReleaseOne(m.leases, lease, l.user);
    forall u
      ensures u != l.user ==> MemoryOf(m', u) == OutstandingMemory(m'.leases, u)
    {
      ReleaseOne(m.leases, lease, u);
      assert MemoryOf(m, u) == OutstandingMemory(m.leases, u);
    }
    assert MemoryExact(m') <==> MemoryOf(m', l.user) == OutstandingMemory(m'.leases, l.user);
  }

  ghost predicate NonNegative(m: Manager) {
    forall i :: 0 <= i < |m.leases| ==> m.leases[i].estimate >= 0
  }

  lemma NonNegativeRelease(m: Manager, lease: nat)
    requires Accurate(m) && MemoryExact(m) && NonNegative(m) && lease < |m.leases|
    ensures MemoryExact(Release(m, lease)) && NonNegative(Release(m, lease))
  {
    if !m.leases[lease].released {
      var l := m.leases[lease];
      var after := m.leases[lease := l.(released := true)];
      MemoryStaysExactExactly(m, lease);
      ReleaseOne(m.leases, lease, l.user);
      NonNegativeMemory(after, l.user);
    }
  }

  function After(m: Manager, cap: int, acts: seq<Action>): Manager
    decreases |acts|
  {
    if |acts| == 0 then m else After(Apply(m, cap, acts[0]), cap, acts[1..])
  }

  /**
   Any order and repetition of subscribing, releasing, returning, throwing and failing keeps counts
   and the cap exact.
   */
  lemma {:induction false} RunKeepsCounts(m: Manager, cap: int, acts: seq<Action>)
    requires Accurate(m) && WithinCap(m, cap)
    ensures Accurate(After(m, cap, acts)) && WithinCap(After(m, cap, acts), cap)
    decreases |acts|
  {
    if |acts| > 0 {
      var a := acts[0];
      if a.Subscribe? {
        if Acquire(m, cap, a.user, a.estimate).Ok? { AcquireKeeps(m, cap, a.user, a.estimate); }
      } else if a.lease < |m.leases| {
        ReleaseKeeps(m, cap, a.lease);
      }
      RunKeepsCounts(Apply(m, cap, a), cap, acts[1..]);
    }
  }

  /** With non-negative estimates the memory figure is the sum of the outstanding ones throughout. */
  lemma {:induction false} RunKeepsMemory(m: Manager, cap: int, acts: seq<Action>)
    requires Accurate(m) && WithinCap(m, cap) && MemoryExact(m) && NonNegative(m)
    requires forall i :: 0 <= i < |acts| && acts[i].Subscribe? ==> acts[i].estimate >= 0
    ensures MemoryExact(After(m, cap, acts))
    decreases |acts|
  {
    if |acts| > 0 {
      var a := acts[0];
      if a.Subscribe? {
        if Acquire(m, cap, a.user, a.estimate).Ok? { AcquireKeeps(m, cap, a.user, a.estimate); }
      } else if a.lease < |m.leases| {
        ReleaseKeeps(m, cap, a.lease);
        NonNegativeRelease(m, a.lease);
      }
      RunKeepsMemory(Apply(m, cap, a), cap, acts[1..]);
    }
  }

  ghost predicate ExactThroughout(m: Manager, cap: int, acts: seq<Action>)
    decreases |acts|
  {
    MemoryExact(m) && (|acts| == 0 || ExactThroughout(Apply(m, cap, acts[0]), cap, acts[1..]))
  }

  /**
   Releasing the lease, if it is outstanding, does not leave estimates that sum below zero, or any
   when it is the last.
   */
  predicate CleanRelease(m: Manager, lease: nat) {
    lease < |m.leases| && !m.leases[lease].released ==>
      if Outstanding(m.leases, m.leases[lease].user) == 1 then LeftAfter(m, lease) == 0 else LeftAfter(m, lease) >= 0
  }

  ghost predicate CleanThroughout(m: Manager, cap: int, acts: seq<Action>)
    decreases |acts|
  {
    |acts| == 0 ||
    ((acts[0].Subscribe? || CleanRelease(m, acts[0].lease)) && CleanThroughout(Apply(m, cap, acts[0]), cap, acts[1..]))
  }

  /** Over every run, for any estimates, the memory figure is exact throughout exactly when every release is clean. */
  lemma {:induction false} ExactThroughoutExactly(m: Manager, cap: int, acts: seq<Action>)
    requires Accurate(m) && WithinCap(m, cap) && MemoryExact(m)
    ensures ExactThroughout(m, cap, acts) <==> CleanThroughout(m, cap, acts)
    decreases |acts|
  {
    if |acts| > 0 {
      var a := acts[0];
      var m' := Apply(m, cap, a);
      if a.Subscribe? {
        if Acquire(m, cap, a.user, a.estimate).Ok? { AcquireKeeps(m, cap, a.user, a.estimate); }
      } else if a.lease < |m.leases| {
        ReleaseKeeps(m, cap, a.lease);
        if !m.leases[a.lease].released { MemoryStaysExactExactly(m, a.lease); }
      }
      if MemoryExact(m') {
        ExactThroughoutExactly(m', cap, acts[1..]);
      }
    }
  }

  /** From the empty manager all of it holds of every run. */
  lemma {:induction false} RunsAreAccurate(cap: int, acts: seq<Action>)
    ensures Accurate(After(EMPTY, cap, acts)) && WithinCap(After(EMPTY, cap, acts), cap)
    ensures (forall i :: 0 <= i < |acts| && acts[i].Subscribe? ==> acts[i].estimate >= 0) ==>
        MemoryExact(After(EMPTY, cap, acts))
  {
    RunKeepsCounts(EMPTY, cap, acts);
    if forall i :: 0 <= i < |acts| && acts[i].Subscribe? ==> acts[i].estimate >= 0 {
      RunKeepsMemory(EMPTY, cap, acts);
    }
  }

  /** After every run a user can subscribe exactly while the outstanding leases are below the cap. */
  lemma {:induction false} SubscribesExactlyBelowCap(cap: int, acts: seq<Action>, user: string, estimate: int)
    ensures var m := After(EMPTY, cap, acts);
            Acquire(m, cap, user, estimate).Ok? <==> Outstanding(m.leases, user) < cap
  {
    RunsAreAccurate(cap, acts);
    assert AccurateFor(After(EMPTY, cap, acts), user);
  }

  /** Releasing twice is releasing once. */
  lemma ReleaseIdempotent(m: Manager, lease: nat)
    requires lease < |m.leases|
    ensures |Release(m, lease).leases| == |m.leases| && Release(Release(m, lease), lease) == Release(m, lease)
  {
  }

  /** With a negative estimate the figure stays at zero while the outstanding estimates sum to -5. */
  lemma {:induction false} NegativeEstimateInexact(acts: seq<Action>)
    requires acts == [Subscribe("u", 5), Subscribe("u", -5), CallRelease(0)]
    ensures var m := After(EMPTY, 2, acts); MemoryOf(m, "u") == 0 && OutstandingMemory(m.leases, "u") == -5
  {
    var m1 := Apply(EMPTY, 2, acts[0]);
    var m2 := Apply(m1, 2, acts[1]);
    var m3 := Apply(m2, 2, acts[2]);
    var rest, last := acts[1..], acts[2..];
    assert rest[0] == acts[1] && rest[1..] == last && last[0] == acts[2] && last[1..] == [];
    assert After(m2, 2, last) == m3 && After(m1, 2, rest) == m3 && After(EMPTY, 2, acts) == m3;
    var l := [Lease("u", 5, true), Lease("u", -5, false)];
    assert m3.leases == l;
    assert l[..1] == [Lease("u", 5, true)] && l[..1][..0] == [];
    assert OutstandingMemory(l[..1], "u") == 0;
  }
}
