/**
 The velocity check: one atomic script that increments a counter key and opens its window.
 Calls of any number of clients on one key are the sequence in which Redis ran the script.
 */
module Velocity {
  import opened RedisKeys
  import opened Collections

  datatype VelocityCheck = VelocityCheck(allowed: bool, count: nat, limit: nat, ttlSeconds: nat)

  /** max(1, floor(windowSeconds)) */
  function TtlSeconds(windowSeconds: real): (t: nat)
    ensures windowSeconds < 1.0 ==> t == 1
    ensures windowSeconds >= 1.0 ==> t as real <= windowSeconds < t as real + 1.0
  {
    if windowSeconds.Floor < 1 then 1 else windowSeconds.Floor
  }

  /** max(0, floor(limit)) */
  function MaxAllowed(limit: real): (m: nat)
    ensures limit < 0.0 ==> m == 0
    ensures limit >= 0.0 ==> m as real <= limit < m as real + 1.0
  {
    if limit.Floor < 0 then 0 else limit.Floor
  }

  class VelocityLimiter {
    var isOpen: bool
    var counters: Db<nat>

    constructor (isOpen: bool)
      ensures this.isOpen == isOpen && counters == map[]
    {
      this.isOpen, counters := isOpen, map[];
    }

    /** Denies without Redis; otherwise answers from the counter after this call's own increment. */
    method CheckAndRecordVelocity(key: string, limit: real, windowSeconds: real, now: int) returns (r: VelocityCheck)
      modifies this
      ensures isOpen == old(isOpen)
      ensures !isOpen ==> !r.allowed && r.count == 0 && counters == old(counters)
      ensures isOpen ==> counters == IncrInWindow(old(counters), key, now, TtlSeconds(windowSeconds))
      ensures isOpen ==> r.count == counters[key].value && (r.allowed <==> r.count <= MaxAllowed(limit))
      ensures r.limit == MaxAllowed(limit) && r.ttlSeconds == TtlSeconds(windowSeconds)
    {
      var ttlSeconds, maxAllowed := TtlSeconds(windowSeconds), MaxAllowed(limit);
      if !isOpen {
        return VelocityCheck(false, 0, maxAllowed, ttlSeconds);
      }
      var current := Incremented(counters, key, now);
      if current == 1 {
        counters := counters[key := Entry(current, now + ttlSeconds * 1000)];
      } else {
        counters := counters[key := Entry(current, counters[key].deadline)];
      }
      r := VelocityCheck(current <= maxAllowed, current, maxAllowed, ttlSeconds);
    }

    /** Checks one key at the given instants, one call after the other. */
    method CheckRepeatedly(key: string, limit: real, windowSeconds: real, times: seq<int>) returns (allowed: seq<bool>)
      requires isOpen && counters == map[]
      modifies this
      ensures |allowed| == |times|
      ensures forall i :: 0 <= i < |times| ==>
                (allowed[i] <==> Allowed(key, times, TtlSeconds(windowSeconds), MaxAllowed(limit), i))
    {
      allowed := [];
      for i := 0 to |times|
        invariant isOpen && |allowed| == i && counters == CountersAfter(key, times[..i], TtlSeconds(windowSeconds))
        invariant forall j :: 0 <= j < i ==>
                    (allowed[j] <==> Allowed(key, times, TtlSeconds(windowSeconds), MaxAllowed(limit), j))
      {
        var r := CheckAndRecordVelocity(key, limit, windowSeconds, times[i]);
        assert times[..i + 1][..i] == times[..i];
        allowed := allowed + [r.allowed];
      }
      assert times[..|times|] == times;
    }
  }

  // ----- runs of calls on one key

  /** The instants at which the script ran, in order. */
  ghost predicate Ordered(times: seq<int>) {
    forall i, j :: 0 <= i < j < |times| ==> times[i] <= times[j]
  }

  function CountersAfter(key: string, times: seq<int>, seconds: nat): Db<nat>
    ensures |times| > 0 ==> key in CountersAfter(key, times, seconds)
    decreases |times|
  {
    if |times| == 0 then map[]
    else IncrInWindow(CountersAfter(key, times[..|times| - 1], seconds), key, times[|times| - 1], seconds)
  }

  /** The counter entry as call `i` left it. */
  function EntryAt(key: string, times: seq<int>, seconds: nat, i: nat): Entry<nat>
    requires i < |times|
  {
    CountersAfter(key, times[..i + 1], seconds)[key]
  }

  predicate Allowed(key: string, times: seq<int>, seconds: nat, limit: nat, i: nat)
    requires i < |times|
  {
    EntryAt(key, times, seconds, i).value <= limit
  }

  lemma EntryStep(key: string, times: seq<int>, seconds: nat, i: nat)
    requires 0 < i < |times| && EntryAt(key, times, seconds, i - 1).value > 0
    ensures var e, e' := EntryAt(key, times, seconds, i - 1), EntryAt(key, times, seconds, i);
            e' == if times[i] < e.deadline then Entry(e.value + 1, e.deadline) else Entry(1, times[i] + seconds * 1000)
  {
    assert times[..i + 1][..i] == times[..i];
  }

  /** The call that opened the counter lifetime of call `i`: the last one that found no live counter. */
  function Opener(times: seq<int>, window: nat, i: nat): (o: nat)
    requires i < |times|
    ensures o <= i
  {
    if i == 0 then 0
    else
      var o := Opener(times, window, i - 1);
      if times[i] < times[o] + window then o else i
  }

  /** Call `i` is the (i - opener + 1)-th of its lifetime, and the window is fixed by the opener. */
  lemma {:induction false} EntryFromOpener(key: string, times: seq<int>, seconds: nat, i: nat)
    requires i < |times|
    ensures var o := Opener(times, seconds * 1000, i);
            EntryAt(key, times, seconds, i) == Entry(i - o + 1, times[o] + seconds * 1000)
  {
    if i == 0 {
      assert times[..1][..0] == [];
      assert CountersAfter(key, times[..1], seconds) == IncrInWindow(map[], key, times[0], seconds);
    } else {
      EntryFromOpener(key, times, seconds, i - 1);
      EntryStep(key, times, seconds, i);
    }
  }

  /** Each lifetime allows exactly its first `limit` calls. */
  lemma {:induction false} AllowedExactly(key: string, times: seq<int>, seconds: nat, limit: nat, i: nat)
    requires i < |times|
    ensures Allowed(key, times, seconds, limit, i) <==> i - Opener(times, seconds * 1000, i) < limit
  {
    EntryFromOpener(key, times, seconds, i);
  }

  // ----- lifetimes are one window apart

  lemma {:induction false} OpenerOfOpener(times: seq<int>, window: nat, i: nat)
    requires i < |times|
    ensures Opener(times, window, Opener(times, window, i)) == Opener(times, window, i)
  {
    if i > 0 && times[i] < times[Opener(times, window, i - 1)] + window {
      OpenerOfOpener(times, window, i - 1);
    }
  }

  lemma {:induction false} OpenersOrdered(times: seq<int>, window: nat, i: nat, j: nat)
    requires i <= j < |times| && Ordered(times) && window > 0
    ensures Opener(times, window, i) <= Opener(times, window, j)
    ensures times[i] < times[Opener(times, window, i)] + window
    ensures Opener(times, window, i) < Opener(times, window, j) ==>
              times[Opener(times, window, i)] + window <= times[Opener(times, window, j)] &&
                i < Opener(times, window, j)
    decreases j
  {
    if i < j {
      OpenersOrdered(times, window, i, j - 1);
    } else if i > 0 && Opener(times, window, i) != i {
      OpenersOrdered(times, window, i - 1, i - 1);
    }
  }

  /** Within one window length there are calls of at most two lifetimes. */
  lemma {:induction false} AtMostTwoLifetimes(times: seq<int>, window: nat, lo: int, a: nat, b: nat, c: nat)
    requires Ordered(times) && window > 0 && a <= b <= c < |times| && lo <= times[a] && times[c] <= lo + window
    ensures Opener(times, window, b) == Opener(times, window, a) || Opener(times, window, c) == Opener(times, window, b)
  {
    OpenersOrdered(times, window, a, b);
    OpenersOrdered(times, window, b, c);
  }

  // ----- counting the allowed calls of an interval

  /** The indices from `a` up to but excluding `b`. */
  function Interval(a: nat, b: nat): (s: set<nat>)
    ensures forall i: nat :: i in s <==> a <= i < b
    ensures |s| == if a <= b then b - a else 0
    decreases b
  {
    if a < b then Interval(a, b - 1) + {b - 1} else {}
  }

  /** The allowed calls between `lo` and `hi`, both included. */
  function AllowedIn(key: string, times: seq<int>, seconds: nat, limit: nat, lo: int, hi: int): set<nat> {
    set i: nat | i < |times| && lo <= times[i] <= hi && Allowed(key, times, seconds, limit, i)
  }

  lemma InterlacedIntervals(s: set<nat>, p: nat, q: nat, limit: nat)
    requires forall i :: i in s ==> p <= i < p + limit || q <= i < q + limit
    ensures |s| <= 2 * limit
    ensures p !in s && limit > 0 ==> |s| <= 2 * limit - 1
  {
    var left := if p in s then Interval(p, p + limit) else Interval(p + 1, p + limit);
    var right := Interval(q, q + limit);
    SubsetSize(s, left + right);
    assert |left + right| <= |left| + |right|;
  }

  /** The allowed calls of an interval of one window come from the lifetimes of its first and last call. */
  lemma {:induction false} TwoLifetimesCover(key: string, times: seq<int>, seconds: nat, limit: nat, lo: int, a: nat,
                                             c: nat, i: nat)
    requires Ordered(times) && seconds > 0 && a <= i <= c < |times| && lo <= times[a] && times[c] <= lo + seconds * 1000
    requires Allowed(key, times, seconds, limit, i)
    ensures var p, q := Opener(times, seconds * 1000, a), Opener(times, seconds * 1000, c);
            p <= i < p + limit || q <= i < q + limit
  {
    AllowedExactly(key, times, seconds, limit, i);
    AtMostTwoLifetimes(times, seconds * 1000, lo, a, i, c);
  }

  lemma FirstAndLast(s: set<nat>) returns (a: nat, c: nat)
    requires s != {}
    ensures a in s && c in s && forall i :: i in s ==> a <= i <= c
    decreases s
  {
    var x :| x in s;
    var rest := s - {x};
    assert forall i :: i in s ==> i == x || i in rest;
    if rest == {} {
      a, c := x, x;
    } else {
      a, c := FirstAndLast(rest);
      a, c := if x < a then x else a, if x > c then x else c;
    }
  }

  /**
   Any interval of one window length, ends included, holds at most `2 * limit` allowed calls;
   leaving out its last instant, at most `2 * limit - 1`.
   */
  lemma WindowBound(key: string, times: seq<int>, seconds: nat, limit: nat, lo: int)
    requires Ordered(times) && seconds > 0
    ensures |AllowedIn(key, times, seconds, limit, lo, lo + seconds * 1000)| <= 2 * limit
    ensures limit > 0 ==> |AllowedIn(key, times, seconds, limit, lo, lo + seconds * 1000 - 1)| <= 2 * limit - 1
  {
    ClosedBound(key, times, seconds, limit, lo);
    if limit > 0 {
      HalfOpenBound(key, times, seconds, limit, lo);
    }
  }

  lemma ClosedBound(key: string, times: seq<int>, seconds: nat, limit: nat, lo: int)
    requires Ordered(times) && seconds > 0
    ensures |AllowedIn(key, times, seconds, limit, lo, lo + seconds * 1000)| <= 2 * limit
  {
    var s := AllowedIn(key, times, seconds, limit, lo, lo + seconds * 1000);
    if s != {} {
      var a, c := FirstAndLast(s);
      forall i | i in s
        ensures var p, q := Opener(times, seconds * 1000, a), Opener(times, seconds * 1000, c);
                p <= i < p + limit || q <= i < q + limit
      {
        TwoLifetimesCover(key, times, seconds, limit, lo, a, c, i);
      }
      InterlacedIntervals(s, Opener(times, seconds * 1000, a), Opener(times, seconds * 1000, c), limit);
    }
  }

  lemma HalfOpenBound(key: string, times: seq<int>, seconds: nat, limit: nat, lo: int)
    requires Ordered(times) && seconds > 0 && limit > 0
    ensures |AllowedIn(key, times, seconds, limit, lo, lo + seconds * 1000 - 1)| <= 2 * limit - 1
  {
    var s := AllowedIn(key, times, seconds, limit, lo, lo + seconds * 1000 - 1);
    if s != {} {
      var a, c := FirstAndLast(s);
      var p, q := Opener(times, seconds * 1000, a), Opener(times, seconds * 1000, c);
      forall i | i in s
        ensures p <= i < p + limit || q <= i < q + limit
      {
        TwoLifetimesCover(key, times, seconds, limit, lo, a, c, i);
      }
      OpenersOrdered(times, seconds * 1000, a, c);
      if p == q {
        SubsetSize(s, Interval(p, p + limit));
      } else {
        InterlacedIntervals(s, p, q, limit);
      }
    }
  }

  // ----- the bound is attained

  function Burst(limit: nat, window: nat): seq<int> {
    seq(2 * limit, i => if i < limit then 0 else window)
  }

  lemma {:induction false} BurstOpeners(limit: nat, window: nat, i: nat)
    requires 0 < window && i < 2 * limit
    ensures Opener(Burst(limit, window), window, i) == if i < limit then 0 else limit
  {
    if i > 0 {
      BurstOpeners(limit, window, i - 1);
    }
  }

  /** For every limit and window some run has exactly `2 * limit` allowed calls in one window length. */
  lemma BoundAttained(key: string, limit: nat, seconds: nat)
    requires seconds > 0
    ensures var times := Burst(limit, seconds * 1000);
            Ordered(times) && |AllowedIn(key, times, seconds, limit, 0, seconds * 1000)| == 2 * limit
  {
    var times := Burst(limit, seconds * 1000);
    forall i: nat | i < |times|
      ensures Allowed(key, times, seconds, limit, i)
    {
      BurstOpeners(limit, seconds * 1000, i);
      AllowedExactly(key, times, seconds, limit, i);
    }
    assert AllowedIn(key, times, seconds, limit, 0, seconds * 1000) == Interval(0, 2 * limit);
  }

  /** Counting a call on one key leaves every other counter alone. */
  lemma OtherCountersUntouched(db: Db<nat>, key: string, now: int, seconds: int, other: string)
    requires other != key
    ensures var db' := IncrInWindow(db, key, now, seconds);
            (other in db' <==> other in db) && (other in db ==> db'[other] == db[other])
  {
  }

  /** The bound in the caller's own numbers: at most twice the limit in any interval of a window's whole seconds. */
  lemma CallerBound(key: string, times: seq<int>, limit: real, windowSeconds: real, lo: int)
    requires Ordered(times)
    ensures var seconds := TtlSeconds(windowSeconds);
            var calls := AllowedIn(key, times, seconds, MaxAllowed(limit), lo, lo + seconds * 1000);
            if limit < 0.0 then |calls| == 0 else |calls| as real <= 2.0 * limit
  {
    var seconds, m := TtlSeconds(windowSeconds), MaxAllowed(limit);
    WindowBound(key, times, seconds, m, lo);
    assert (2 * m) as real == 2.0 * m as real;
  }
}
