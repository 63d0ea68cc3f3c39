/**
 JWT sessions of one user: a Redis key per session and a sorted set of session ids, whose own
 time to live is rewritten at every registration. Times are milliseconds, expiries are seconds.
 */
module JwtSessions {
  import opened Wrappers
  import opened RedisKeys
  import opened Collections

  /** An element of the sorted set, with the instant of its last registration as score. */
  datatype Member = Member(id: string, score: int)

  /** `ranking` is the sorted set in order; it is gone from `rankingDeadline` on. */
  datatype Sessions = Sessions(keys: Db<string>, ranking: seq<Member>, rankingDeadline: int)

  predicate LexLess(a: string, b: string) {
    if |b| == 0 then false
    else if |a| == 0 then true
    else a[0] < b[0] || (a[0] == b[0] && LexLess(a[1..], b[1..]))
  }

  /** Redis orders by score, then by member. */
  predicate Before(a: Member, b: Member) { a.score < b.score || (a.score == b.score && LexLess(a.id, b.id)) }

  predicate HasId(r: seq<Member>, id: string) { exists i :: 0 <= i < |r| && r[i].id == id }

  ghost predicate DistinctIds(r: seq<Member>) {
    forall i, j :: 0 <= i < j < |r| ==> r[i].id != r[j].id
  }

  /** ZREM */
  function ZRem(r: seq<Member>, id: string): (q: seq<Member>)
    ensures forall x :: HasId(q, x) <==> HasId(r, x) && x != id
    ensures |q| <= |r|
    ensures DistinctIds(r) ==> DistinctIds(q)
    ensures !HasId(r, id) ==> q == r
  {
    if |r| == 0 then []
    else
      var q := ZRem(r[1..], id);
      assert forall x :: HasId(r, x) <==> r[0].id == x || HasId(r[1..], x) by { HasIdSplit(r); }
      if r[0].id == id then q
      else
        assert forall x :: HasId([r[0]] + q, x) <==> r[0].id == x || HasId(q, x) by { HasIdSplit([r[0]] + q); }
        assert DistinctIds(r) ==> DistinctIds(r[1..]) && !HasId(r[1..], r[0].id);
        [r[0]] + q
  }

  lemma HasIdSplit(r: seq<Member>)
    requires |r| > 0
    ensures forall x :: HasId(r, x) <==> r[0].id == x || HasId(r[1..], x)
  {
    forall x
      ensures HasId(r, x) <==> r[0].id == x || HasId(r[1..], x)
    {
      if HasId(r, x) {
        var i :| 0 <= i < |r| && r[i].id == x;
        if i > 0 { assert r[1..][i - 1].id == x; }
      }
      if HasId(r[1..], x) {
        var i :| 0 <= i < |r[1..]| && r[1..][i].id == x;
        assert r[i + 1].id == x;
      }
      if r[0].id == x { assert HasId(r, x); }
    }
  }

  /** The insertion half of ZADD. */
  function Insert(r: seq<Member>, m: Member): (q: seq<Member>)
    requires !HasId(r, m.id)
    ensures |q| == |r| + 1
    ensures forall x :: HasId(q, x) <==> HasId(r, x) || x == m.id
    ensures DistinctIds(r) ==> DistinctIds(q)
    decreases |r|
  {
    if |r| == 0 || Before(m, r[0]) then
      assert [m] + r == ([m] + r) && ([m] + r)[1..] == r;
      HasIdSplit([m] + r);
      [m] + r
    else
      HasIdSplit(r);
      assert DistinctIds(r) ==> DistinctIds(r[1..]) && !HasId(r[1..], r[0].id);
      var q := Insert(r[1..], m);
      assert ([r[0]] + q)[1..] == q;
      HasIdSplit([r[0]] + q);
      [r[0]] + q
  }

  function ZAdd(r: seq<Member>, m: Member): seq<Member> { Insert(ZRem(r, m.id), m) }

  // ----- registration

  /** max(1, expiresAt - floor(now / 1000)) */
  function SessionTtl(expiresAt: int, now: int): (t: int)
    ensures t >= 1
  {
    if expiresAt - now / 1000 > 1 then expiresAt - now / 1000 else 1
  }

  function DeadlineOf(expiresAt: int, now: int): int { now + SessionTtl(expiresAt, now) * 1000 }

  function Cap(configured: int): (m: nat)
    ensures m >= 1 && (configured >= 1 ==> m == configured) && (configured < 1 ==> m == 1)
  {
    if configured > 1 then configured else 1
  }

  function LiveRanking(s: Sessions, now: int): seq<Member> {
    if now < s.rankingDeadline then s.ranking else []
  }

  /** The ids of the first `n` members. */
  function FirstIds(r: seq<Member>, n: nat): set<string>
    requires n <= |r|
  {
    set i | 0 <= i < n :: r[i].id
  }

  function Surplus(r: seq<Member>, configured: int): (n: nat)
    ensures n <= |r|
  {
    if |r| > Cap(configured) then |r| - Cap(configured) else 0
  }

  function Register(s: Sessions, configured: int, id: string, binding: string, expiresAt: int, now: int): Sessions {
    var ttl := SessionTtl(expiresAt, now);
    var ranked := ZAdd(LiveRanking(s, now), Member(id, now));
    var n := Surplus(ranked, configured);
    Sessions(SetEx(s.keys, id, binding, now, ttl) - FirstIds(ranked, n), ranked[n..], now + ttl * 1000)
  }

  class SessionRegistry {
    const maxConcurrent: int
    var keys: Db<string>
    var ranking: seq<Member>
    var rankingDeadline: int

    ghost predicate Valid()
      reads this
    {
      DistinctIds(ranking)
    }

    function View(): Sessions
      reads this
    {
      Sessions(keys, ranking, rankingDeadline)
    }

    constructor (maxConcurrent: int)
      ensures Valid() && this.maxConcurrent == maxConcurrent && View() == Sessions(map[], [], 0)
    {
      this.maxConcurrent, keys, ranking, rankingDeadline := maxConcurrent, map[], [], 0;
    }

    method RegisterJwtSession(id: string, binding: string, expiresAt: int, now: int)
      requires Valid()
      modifies this
      ensures Valid() && View() == Register(old(View()), maxConcurrent, id, binding, expiresAt, now)
    {
      var ttl := SessionTtl(expiresAt, now);
      keys := SetEx(keys, id, binding, now, ttl);
      ranking := ZAdd(LiveRanking(View(), now), Member(id, now));
      rankingDeadline := now + ttl * 1000;

      Evict(Surplus(ranking, maxConcurrent));
    }

    /** The loop over the oldest sessions: each loses its key and its place in the sorted set. */
    method Evict(n: nat)
      requires Valid() && n <= |ranking|
      modifies this`keys, this`ranking
      ensures Valid() && keys == old(keys) - FirstIds(old(ranking), n) && ranking == old(ranking)[n..]
    {
      var sessions := ranking;
      var i := 0;
      while i < n
        invariant 0 <= i <= n
        invariant keys == old(keys) - FirstIds(sessions, i)
        invariant ranking == sessions[i..]
      {
        keys := Del(keys, sessions[i].id);
        assert FirstIds(sessions, i + 1) == FirstIds(sessions, i) + {sessions[i].id};
        DropFirst(ranking);
        ranking := ZRem(ranking, sessions[i].id);
        i := i + 1;
      }
    }
  }

  lemma {:induction false} DropFirst(r: seq<Member>)
    requires |r| > 0 && DistinctIds(r)
    ensures ZRem(r, r[0].id) == r[1..]
  {
    assert !HasId(r[1..], r[0].id);
  }

  // ----- every live session is in the sorted set

  /** At `now` and at every later instant, a live session key is a member of the live sorted set. */
  ghost predicate Covered(s: Sessions, now: int) {
    forall id, t :: now <= t && Alive(s.keys, id, t) ==> t < s.rankingDeadline && HasId(s.ranking, id)
  }

  ghost predicate CoveredByDeadline(s: Sessions, now: int) {
    forall id :: Alive(s.keys, id, now) ==> s.keys[id].deadline <= s.rankingDeadline && HasId(s.ranking, id)
  }

  lemma CoveredMeans(s: Sessions, now: int)
    ensures Covered(s, now) <==> CoveredByDeadline(s, now)
  {
    if Covered(s, now) {
      forall id | Alive(s.keys, id, now)
        ensures s.keys[id].deadline <= s.rankingDeadline && HasId(s.ranking, id)
      {
        assert Alive(s.keys, id, s.keys[id].deadline - 1);
      }
    }
    if CoveredByDeadline(s, now) {
      forall id, t | now <= t && Alive(s.keys, id, t)
        ensures t < s.rankingDeadline && HasId(s.ranking, id)
      {
        assert Alive(s.keys, id, now);
      }
    }
  }

  /** The sessions a registration pushes out. */
  function Evicted(s: Sessions, configured: int, id: string, now: int): set<string> {
    var ranked := ZAdd(LiveRanking(s, now), Member(id, now));
    FirstIds(ranked, Surplus(ranked, configured))
  }

  /** No other session that stays lives longer than the one being registered. */
  ghost predicate OutlivedByNone(s: Sessions, configured: int, id: string, expiresAt: int, now: int) {
    forall x :: x != id && Alive(s.keys, x, now) && x !in Evicted(s, configured, id, now) ==>
      s.keys[x].deadline <= now + SessionTtl(expiresAt, now) * 1000
  }

  lemma SurvivorsRanked(s: Sessions, configured: int, id: string, binding: string, expiresAt: int, now: int, x: string)
    requires CoveredByDeadline(s, now)
    ensures var s' := Register(s, configured, id, binding, expiresAt, now);
            Alive(s'.keys, x, now) ==> HasId(s'.ranking, x)
  {
    var ranked := ZAdd(LiveRanking(s, now), Member(id, now));
    var n := Surplus(ranked, configured);
    var s' := Register(s, configured, id, binding, expiresAt, now);
    if Alive(s'.keys, x, now) {
      assert x != id ==> Alive(s.keys, x, now);
      assert HasId(ranked, x);
      var i :| 0 <= i < |ranked| && ranked[i].id == x;
      assert i >= n;
      assert s'.ranking[i - n].id == x;
    }
  }

  /**
   A registration keeps every live session covered exactly when no session that stays outlives
   the one being registered.
   */
  lemma RegistrationKeepsCoverExactly(s: Sessions, configured: int, id: string, binding: string, expiresAt: int,
                                      now: int)
    requires Covered(s, now)
    ensures var s' := Register(s, configured, id, binding, expiresAt, now);
            Covered(s', now) <==> OutlivedByNone(s, configured, id, expiresAt, now)
  {
    var s' := Register(s, configured, id, binding, expiresAt, now);
    CoveredMeans(s, now);
    CoveredMeans(s', now);
    forall x
      ensures Alive(s'.keys, x, now) ==> HasId(s'.ranking, x)
    {
      SurvivorsRanked(s, configured, id, binding, expiresAt, now, x);
    }
    forall x
      ensures Kept(s, s', configured, id, now, x)
    {
    }
    assert id in s'.keys ==> s'.keys[id].deadline == s'.rankingDeadline;
    if OutlivedByNone(s, configured, id, expiresAt, now) {
      assert CoveredByDeadline(s', now) by {
        assert forall x :: Alive(s'.keys, x, now) ==> Kept(s, s', configured, id, now, x);
      }
    }
    if CoveredByDeadline(s', now) {
      assert forall x :: Alive(s.keys, x, now) ==> Kept(s, s', configured, id, now, x);
    }
  }

  /** The keys of the other sessions after a registration: those before it, without the evicted ones. */
  ghost predicate Kept(s: Sessions, s': Sessions, configured: int, id: string, now: int, x: string) {
    x != id ==>
      && (x in s'.keys <==> x in s.keys && x !in Evicted(s, configured, id, now))
      && (x in s'.keys ==> s'.keys[x] == s.keys[x])
  }

  // ----- the cap

  function LiveIds(s: Sessions, now: int): set<string> {
    set id | id in s.keys && Alive(s.keys, id, now)
  }

  lemma {:induction false} FewIds(r: seq<Member>, ids: set<string>)
    requires forall x :: x in ids ==> HasId(r, x)
    ensures |ids| <= |r|
    decreases |r|
  {
    if |r| == 0 {
      assert ids == {};
    } else {
      HasIdSplit(r);
      FewIds(r[1..], ids - {r[0].id});
    }
  }

  lemma CoveredIsCapped(s: Sessions, configured: int, now: int)
    requires Covered(s, now) && |s.ranking| <= Cap(configured)
    ensures |LiveIds(s, now)| <= Cap(configured)
  {
    FewIds(s.ranking, LiveIds(s, now));
  }

  // ----- runs

  datatype Registration = Registration(id: string, binding: string, expiresAt: int, at: int)

  const NONE := Sessions(map[], [], 0)

  function Apply(s: Sessions, configured: int, r: Registration): Sessions {
    Register(s, configured, r.id, r.binding, r.expiresAt, r.at)
  }

  function Continue(s: Sessions, configured: int, run: seq<Registration>): Sessions
    decreases |run|
  {
    if |run| == 0 then s else Apply(Continue(s, configured, run[..|run| - 1]), configured, run[|run| - 1])
  }

  function After(configured: int, run: seq<Registration>): Sessions { Continue(NONE, configured, run) }

  /** A clock in milliseconds that does not go back. */
  ghost predicate OrderedFrom(now: int, run: seq<Registration>) {
    && (forall i :: 0 <= i < |run| ==> now <= run[i].at)
    && (forall i, j :: 0 <= i < j < |run| ==> run[i].at <= run[j].at)
  }

  /** The key deadline a registration sets. */
  function Deadline(r: Registration): int { DeadlineOf(r.expiresAt, r.at) }

  function EndOf(now: int, run: seq<Registration>): int { if |run| == 0 then now else run[|run| - 1].at }

  /** No registration of the run is outlived by a session that stays. */
  ghost predicate NeverOutlived(s: Sessions, configured: int, run: seq<Registration>)
    decreases |run|
  {
    |run| == 0 ||
    var pre, r := run[..|run| - 1], run[|run| - 1];
    && NeverOutlived(s, configured, pre)
    && OutlivedByNone(Continue(s, configured, pre), configured, r.id, r.expiresAt, r.at)
  }

  /** After every registration of the run every live session is in the set, then and later. */
  ghost predicate CoveredThroughout(s: Sessions, configured: int, run: seq<Registration>)
    decreases |run|
  {
    |run| == 0 || (CoveredThroughout(s, configured, run[..|run| - 1]) &&
      Covered(Continue(s, configured, run), run[|run| - 1].at))
  }

  lemma {:induction false} ContinueSnoc(s: Sessions, configured: int, run: seq<Registration>, r: Registration)
    ensures Continue(s, configured, run + [r]) == Apply(Continue(s, configured, run), configured, r)
    ensures NeverOutlived(s, configured, run + [r]) <==>
            && NeverOutlived(s, configured, run)
            && OutlivedByNone(Continue(s, configured, run), configured, r.id, r.expiresAt, r.at)
  {
    assert (run + [r])[..|run|] == run;
  }

  /**
   From a covered state, every live session stays covered after each registration of an ordered
   run exactly when no registration is outlived by a session that stays.
   */
  lemma {:induction false} CoveredExactly(s: Sessions, configured: int, now: int, run: seq<Registration>)
    requires Covered(s, now) && OrderedFrom(now, run)
    ensures CoveredThroughout(s, configured, run) <==> NeverOutlived(s, configured, run)
    ensures NeverOutlived(s, configured, run) ==> Covered(Continue(s, configured, run), EndOf(now, run))
    decreases |run|
  {
    if |run| > 0 {
      var pre, r := run[..|run| - 1], run[|run| - 1];
      CoveredExactly(s, configured, now, pre);
      if NeverOutlived(s, configured, pre) {
        RegistrationKeepsCoverExactly(Continue(s, configured, pre), configured, r.id, r.binding, r.expiresAt, r.at);
      }
    }
  }

  lemma {:induction false} SetShape(s: Sessions, configured: int, run: seq<Registration>)
    requires |s.ranking| <= Cap(configured) && DistinctIds(s.ranking)
    ensures var s' := Continue(s, configured, run); |s'.ranking| <= Cap(configured) && DistinctIds(s'.ranking)
    decreases |run|
  {
    if |run| > 0 {
      SetShape(s, configured, run[..|run| - 1]);
    }
  }

  /** At every instant of every ordered run that is never outlived, at most max(1, configured) sessions are alive. */
  lemma {:induction false} SessionsCapped(configured: int, run: seq<Registration>, start: int, now: int)
    requires OrderedFrom(start, run) && NeverOutlived(NONE, configured, run) && EndOf(start, run) <= now
    ensures |LiveIds(After(configured, run), now)| <= Cap(configured)
  {
    CoveredExactly(NONE, configured, start, run);
    SetShape(NONE, configured, run);
    CoveredIsCapped(After(configured, run), configured, now);
  }

  // ----- exactly when the cap is safe

  /** Every ordered continuation in which no registration is outlived keeps the cap at every instant. */
  ghost predicate KeepsCap(s: Sessions, configured: int, now: int) {
    forall more, t :: OrderedFrom(now, more) && NeverOutlived(s, configured, more) && EndOf(now, more) <= t ==>
      |LiveIds(Continue(s, configured, more), t)| <= Cap(configured)
  }

  lemma {:induction false} ManyIds(r: seq<Member>, ids: set<string>)
    requires DistinctIds(r) && forall x :: HasId(r, x) ==> x in ids
    ensures |r| <= |ids|
    decreases |r|
  {
    if |r| > 0 {
      HasIdSplit(r);
      assert !HasId(r[1..], r[0].id);
      ManyIds(r[1..], ids - {r[0].id});
    }
  }

  lemma {:induction false} FreshId(ids: set<string>) returns (id: string)
    ensures forall x :: x in ids ==> |x| < |id|
    decreases ids
  {
    if ids == {} {
      id := "";
    } else {
      var x :| x in ids;
      id := FreshId(ids - {x});
      id := if |x| < |id| then id else x + "+";
    }
  }

  lemma {:induction false} LatestDeadline(keys: Db<string>) returns (d: int)
    ensures forall x :: x in keys ==> keys[x].deadline <= d
    decreases keys.Keys
  {
    if keys == map[] {
      d := 0;
    } else {
      var x :| x in keys;
      var rest := keys - {x};
      d := LatestDeadline(rest);
      d := if keys[x].deadline <= d then d else keys[x].deadline;
      assert forall y :: y in keys ==> y == x || (y in rest && rest[y] == keys[y]);
    }
  }

  /** Registering a member of the set again, or a new one below the cap, evicts nobody. */
  lemma NobodyEvicted(s: Sessions, configured: int, r: Registration)
    requires DistinctIds(s.ranking) && |s.ranking| <= Cap(configured)
    requires HasId(LiveRanking(s, r.at), r.id) || |LiveRanking(s, r.at)| < Cap(configured)
    ensures var s' := Apply(s, configured, r);
            && s'.keys == s.keys[r.id := Entry(r.binding, Deadline(r))] && s'.rankingDeadline == Deadline(r)
            && DistinctIds(s'.ranking) && |s'.ranking| <= Cap(configured)
            && forall x :: HasId(s'.ranking, x) <==> HasId(LiveRanking(s, r.at), x) || x == r.id
  {
    var live := LiveRanking(s, r.at);
    if HasId(live, r.id) {
      RemovedSmaller(live, r.id);
    }
    var ranked := ZAdd(live, Member(r.id, r.at));
    assert Surplus(ranked, configured) == 0 && ranked[0..] == ranked && FirstIds(ranked, 0) == {};
  }

  lemma {:induction false} RemovedSmaller(r: seq<Member>, id: string)
    requires HasId(r, id)
    ensures |ZRem(r, id)| < |r|
    decreases |r|
  {
    HasIdSplit(r);
    if r[0].id != id { RemovedSmaller(r[1..], id); }
  }

  /** A live session outside the set, and `strong` members of the set that live until `until`. */
  ghost predicate Escaped(s: Sessions, configured: int, x: string, t: int, strong: set<string>, until: int) {
    && Alive(s.keys, x, t) && !HasId(LiveRanking(s, t), x)
    && |s.ranking| <= Cap(configured) && DistinctIds(s.ranking)
    && (forall y :: y in s.keys ==> s.keys[y].deadline <= until)
    && (forall y :: y in strong ==> HasId(LiveRanking(s, t), y) && y in s.keys && s.keys[y].deadline == until)
  }

  lemma OneStronger(s: Sessions, configured: int, x: string, r: Registration, strong: set<string>)
    requires Escaped(s, configured, x, r.at, strong, Deadline(r)) && r.id != x
    requires HasId(LiveRanking(s, r.at), r.id) || |LiveRanking(s, r.at)| < Cap(configured)
    ensures Escaped(Apply(s, configured, r), configured, x, r.at, strong + {r.id}, Deadline(r))
    ensures OutlivedByNone(s, configured, r.id, r.expiresAt, r.at)
  {
    NobodyEvicted(s, configured, r);
  }

  lemma EnoughStrong(s: Sessions, configured: int, x: string, t: int, strong: set<string>, until: int)
    requires Escaped(s, configured, x, t, strong, until) && t < until && |strong| >= Cap(configured)
    ensures |LiveIds(s, t)| > Cap(configured)
  {
    assert x !in strong && strong + {x} <= LiveIds(s, t);
    SubsetSize(strong + {x}, LiveIds(s, t));
  }

  /** A member of the set that is not strong yet, or a new id while there is room. */
  lemma NextStrong(s: Sessions, configured: int, x: string, t: int, strong: set<string>,
                   until: int) returns (id: string)
    requires Escaped(s, configured, x, t, strong, until) && |strong| < Cap(configured)
    ensures id != x && id !in strong && (HasId(LiveRanking(s, t), id) || |LiveRanking(s, t)| < Cap(configured))
  {
    if y :| HasId(LiveRanking(s, t), y) && y !in strong {
      id := y;
    } else {
      id := FreshId(strong + {x});
      ManyIds(LiveRanking(s, t), strong);
    }
  }

  lemma OrderedSnoc(now: int, run: seq<Registration>, r: Registration)
    requires OrderedFrom(now, run) && EndOf(now, run) <= r.at && now <= r.at
    ensures OrderedFrom(now, run + [r]) && EndOf(now, run + [r]) == r.at
  {
    var more := run + [r];
    assert forall i :: 0 <= i < |run| ==> more[i] == run[i] && run[i].at <= run[|run| - 1].at;
  }

  /** Past an escaped session the set can be filled to the cap with live sessions. */
  lemma {:induction false} FillUp(s: Sessions, configured: int, now: int, run: seq<Registration>, x: string, t: int,
                                  expiresAt: int, strong: set<string>)
    returns (more: seq<Registration>)
    requires OrderedFrom(now, run) && EndOf(now, run) <= t && now <= t && NeverOutlived(s, configured, run)
    requires Escaped(Continue(s, configured, run), configured, x, t, strong, DeadlineOf(expiresAt, t))
    ensures OrderedFrom(now, more) && EndOf(now, more) <= t && NeverOutlived(s, configured, more)
    ensures |LiveIds(Continue(s, configured, more), t)| > Cap(configured)
    decreases Cap(configured) - |strong|
  {
    var s', until := Continue(s, configured, run), DeadlineOf(expiresAt, t);
    if |strong| >= Cap(configured) {
      more := run;
      EnoughStrong(s', configured, x, t, strong, until);
    } else {
      var id := NextStrong(s', configured, x, t, strong, until);
      var r := Registration(id, "", expiresAt, t);
      OneStronger(s', configured, x, r, strong);
      OrderedSnoc(now, run, r);
      ContinueSnoc(s, configured, run, r);
      more := FillUp(s, configured, now, run + [r], x, t, expiresAt, strong + {id});
    }
  }

  /** The cap is safe in every continuation exactly when every live session is in the set for as long as it lives. */
  lemma KeepsCapExactly(s: Sessions, configured: int, now: int)
    requires |s.ranking| <= Cap(configured) && DistinctIds(s.ranking)
    ensures KeepsCap(s, configured, now) <==> Covered(s, now)
  {
    if Covered(s, now) {
      forall more, t | OrderedFrom(now, more) && NeverOutlived(s, configured, more) && EndOf(now, more) <= t
        ensures |LiveIds(Continue(s, configured, more), t)| <= Cap(configured)
      {
        CoveredExactly(s, configured, now, more);
        SetShape(s, configured, more);
        CoveredIsCapped(Continue(s, configured, more), configured, t);
      }
    } else {
      var x, t :| now <= t && Alive(s.keys, x, t) && !(t < s.rankingDeadline && HasId(s.ranking, x));
      var d := LatestDeadline(s.keys);
      var more := FillUp(s, configured, now, [], x, t, t / 1000 + (d - t), {});
    }
  }

  /** After every registration of the run, the cap is safe in every continuation. */
  ghost predicate CapSafeThroughout(configured: int, run: seq<Registration>)
    decreases |run|
  {
    |run| == 0 ||
    (CapSafeThroughout(configured, run[..|run| - 1]) && KeepsCap(After(configured, run), configured, run[|run| - 1].at))
  }

  lemma {:induction false} CapSafeIsCovered(configured: int, run: seq<Registration>)
    ensures CapSafeThroughout(configured, run) <==> CoveredThroughout(NONE, configured, run)
    decreases |run|
  {
    if |run| > 0 {
      CapSafeIsCovered(configured, run[..|run| - 1]);
      SetShape(NONE, configured, run);
      KeepsCapExactly(After(configured, run), configured, run[|run| - 1].at);
    }
  }

  /**
   Main theorem. Over every ordered run, on a clock in milliseconds, the cap is safe after each
   registration exactly when no registration is outlived by a session that stays.
   */
  lemma {:induction false} CapSafeExactly(configured: int, run: seq<Registration>, start: int)
    requires OrderedFrom(start, run)
    ensures CapSafeThroughout(configured, run) <==> NeverOutlived(NONE, configured, run)
  {
    CapSafeIsCovered(configured, run);
    CoveredExactly(NONE, configured, start, run);
  }

  // ----- whole seconds

  /** A whole-second clock that does not go back, and session expiries that do not go back either. */
  ghost predicate Steady(run: seq<Registration>) {
    && (forall i :: 0 <= i < |run| ==> run[i].at % 1000 == 0)
    && (forall i, j :: 0 <= i < j < |run| ==> run[i].at <= run[j].at && run[i].expiresAt <= run[j].expiresAt)
  }

  lemma DeadlinesOrdered(a: Registration, b: Registration)
    requires a.at % 1000 == 0 && b.at % 1000 == 0 && a.at <= b.at && a.expiresAt <= b.expiresAt
    ensures Deadline(a) <= Deadline(b)
  {
  }

  ghost predicate AllBy(s: Sessions, deadline: int) {
    forall x :: x in s.keys ==> s.keys[x].deadline <= deadline
  }

  lemma LongestSession(s: Sessions, configured: int, r: Registration)
    requires AllBy(s, Deadline(r))
    ensures OutlivedByNone(s, configured, r.id, r.expiresAt, r.at) && AllBy(Apply(s, configured, r), Deadline(r))
  {
  }

  /** On such a run no registration is ever outlived, so the cap holds. */
  lemma {:induction false} SteadyNeverOutlived(configured: int, run: seq<Registration>)
    requires Steady(run)
    ensures NeverOutlived(NONE, configured, run)
    ensures |run| > 0 ==> AllBy(After(configured, run), Deadline(run[|run| - 1]))
    decreases |run|
  {
    if |run| > 0 {
      var pre, r := run[..|run| - 1], run[|run| - 1];
      SteadyNeverOutlived(configured, pre);
      if |pre| > 0 {
        DeadlinesOrdered(pre[|pre| - 1], r);
      }
      assert AllBy(After(configured, pre), Deadline(r));
      LongestSession(After(configured, pre), configured, r);
    }
  }

  lemma {:induction false} SteadySessionsCapped(configured: int, run: seq<Registration>, now: int)
    requires Steady(run) && (|run| > 0 ==> run[|run| - 1].at <= now)
    ensures |LiveIds(After(configured, run), now)| <= Cap(configured)
  {
    SteadyNeverOutlived(configured, run);
    SessionsCapped(configured, run, if |run| == 0 then now else run[0].at, now);
  }

  // ----- runs that break the cap

  lemma FirstTwo(a: Registration, b: Registration)
    requires a.id != b.id && a.at <= b.at < Deadline(a)
    ensures var s := After(2, [a, b]);
            s.keys == map[a.id := Entry(a.binding, Deadline(a)), b.id := Entry(b.binding, Deadline(b))] &&
              s.rankingDeadline == Deadline(b)
  {
    ContinueSnoc(NONE, 2, [], a);
    ContinueSnoc(NONE, 2, [a], b);
    assert [] + [a] == [a] && [a] + [b] == [a, b];
    NobodyEvicted(NONE, 2, a);
    assert After(2, [a]).ranking == [Member(a.id, a.at)];
    NobodyEvicted(After(2, [a]), 2, b);
  }

  lemma LastTwo(s: Sessions, c: Registration, d: Registration)
    requires DistinctIds(s.ranking) && |s.ranking| <= 2 && s.rankingDeadline <= c.at == d.at && c.id != d.id
    ensures Apply(Apply(s, 2, c), 2, d).keys ==
            s.keys[c.id := Entry(c.binding, Deadline(c))][d.id := Entry(d.binding, Deadline(d))]
  {
    NobodyEvicted(s, 2, c);
    assert Apply(s, 2, c).ranking == [Member(c.id, c.at)];
    NobodyEvicted(Apply(s, 2, c), 2, d);
  }

  lemma LastTwoKeys(run: seq<Registration>, c: Registration, d: Registration)
    requires After(2, run).rankingDeadline <= c.at == d.at && c.id != d.id
    ensures After(2, run + [c] + [d]).keys ==
            After(2, run).keys[c.id := Entry(c.binding, Deadline(c))][d.id := Entry(d.binding, Deadline(d))]
  {
    SetShape(NONE, 2, run);
    ContinueSnoc(NONE, 2, run, c);
    ContinueSnoc(NONE, 2, run + [c], d);
    LastTwo(After(2, run), c, d);
  }

  lemma ThreeAlive(s: Sessions, a: Registration, b: Registration, c: Registration, d: Registration)
    requires a.id != b.id && c.id != d.id && {a.id, b.id} !! {c.id, d.id} && Deadline(b) <= c.at == d.at < Deadline(a)
    requires s.keys == map[a.id := Entry(a.binding, Deadline(a)), b.id := Entry(b.binding, Deadline(b))]
                         [c.id := Entry(c.binding, Deadline(c))][d.id := Entry(d.binding, Deadline(d))]
    ensures |LiveIds(s, d.at)| == 3
  {
    assert LiveIds(s, d.at) == {a.id, c.id, d.id};
  }

  /**
   Under a cap of two: `a` outlives `b`, and once the set has gone with `b`, `c` and `d` join `a`.
   */
  lemma OutlivingSessionBreaksCap(ab: seq<Registration>, c: Registration, d: Registration)
    requires |ab| == 2 && ab[0].id != ab[1].id && c.id != d.id && {ab[0].id, ab[1].id} !! {c.id, d.id}
    requires ab[0].at <= ab[1].at && Deadline(ab[1]) <= c.at == d.at < Deadline(ab[0])
    ensures |LiveIds(After(2, ab + [c] + [d]), d.at)| == 3 > Cap(2)
  {
    assert ab == [ab[0], ab[1]];
    FirstTwo(ab[0], ab[1]);
    LastTwoKeys(ab, c, d);
    ThreeAlive(After(2, ab + [c] + [d]), ab[0], ab[1], c, d);
  }

  /** On whole seconds, when a later session is shorter. */
  lemma {:induction false} ShorterSessionBreaksCap(run: seq<Registration>)
    requires run == [Registration("a", "", 100, 0), Registration("b", "", 10, 0), Registration("c", "", 100, 20000),
        Registration("d", "", 100, 20000)]
    ensures |LiveIds(After(2, run), 20000)| == 3 > Cap(2)
  {
    assert run == run[..2] + [run[2]] + [run[3]];
    OutlivingSessionBreaksCap(run[..2], run[2], run[3]);
  }

  /** Between whole seconds, although no session expires before an earlier one. */
  lemma {:induction false} RoundedLifetimeBreaksCap(run: seq<Registration>)
    requires run == [Registration("a", "", 10, 900), Registration("b", "", 10, 1000), Registration("c", "", 100, 10000),
        Registration("d", "", 100, 10000)]
    ensures |LiveIds(After(2, run), 10000)| == 3 > Cap(2)
  {
    assert run == run[..2] + [run[2]] + [run[3]];
    OutlivingSessionBreaksCap(run[..2], run[2], run[3]);
  }

  // ----- which sessions are evicted

  lemma {:induction false} LexLessTransitive(a: string, b: string, c: string)
    requires LexLess(a, b) && LexLess(b, c)
    ensures LexLess(a, c)
    decreases |a|
  {
    if |a| > 0 && a[0] == b[0] == c[0] {
      LexLessTransitive(a[1..], b[1..], c[1..]);
    }
  }

  lemma BeforeTransitive(a: Member, b: Member, c: Member)
    requires Before(a, b) && Before(b, c)
    ensures Before(a, c)
  {
    if a.score == b.score == c.score {
      LexLessTransitive(a.id, b.id, c.id);
    }
  }

  ghost predicate Sorted(r: seq<Member>) {
    forall i, j :: 0 <= i < j < |r| ==> !Before(r[j], r[i])
  }

  lemma {:induction false} InsertSorted(r: seq<Member>, m: Member)
    requires Sorted(r) && !HasId(r, m.id)
    ensures Sorted(Insert(r, m))
    ensures forall i :: 0 <= i < |Insert(r, m)| ==> Insert(r, m)[i] == m || Insert(r, m)[i] in r
    decreases |r|
  {
    if |r| == 0 {
    } else if Before(m, r[0]) {
      forall j | 0 <= j < |r|
        ensures !Before(r[j], m)
      {
        if Before(r[j], m) { BeforeTransitive(r[j], m, r[0]); AntiReflexive(r[0]); }
      }
    } else {
      HasIdSplit(r);
      InsertSorted(r[1..], m);
    }
  }

  lemma AntiReflexive(m: Member)
    ensures !Before(m, m)
  {
    NotLexLess(m.id);
  }

  lemma {:induction false} NotLexLess(a: string)
    ensures !LexLess(a, a)
  {
    if |a| > 0 { NotLexLess(a[1..]); }
  }

  lemma {:induction false} ZRemSorted(r: seq<Member>, id: string)
    requires Sorted(r)
    ensures Sorted(ZRem(r, id)) && forall i :: 0 <= i < |ZRem(r, id)| ==> ZRem(r, id)[i] in r
    decreases |r|
  {
    if |r| > 0 { ZRemSorted(r[1..], id); }
  }

  /**
   The sorted set stays sorted, and a registration evicts only sessions registered no later than
   every one it keeps.
   */
  lemma OldestEvicted(s: Sessions, configured: int, id: string, binding: string, expiresAt: int, now: int)
    requires Sorted(s.ranking)
    ensures var ranked := ZAdd(LiveRanking(s, now), Member(id, now));
            var n, s' := Surplus(ranked, configured), Register(s, configured, id, binding, expiresAt, now);
            && Sorted(s'.ranking) && |s'.ranking| <= Cap(configured)
            && forall i, j :: 0 <= i < n <= j < |ranked| ==>
              ranked[i].score <= ranked[j].score && ranked[i].id !in s'.keys
  {
    ZRemSorted(LiveRanking(s, now), id);
    InsertSorted(ZRem(LiveRanking(s, now), id), Member(id, now));
    var ranked := ZAdd(LiveRanking(s, now), Member(id, now));
    forall i, j | 0 <= i < Surplus(ranked, configured) <= j < |ranked|
      ensures ranked[i].score <= ranked[j].score && ranked[i].id in FirstIds(ranked, Surplus(ranked, configured))
    {
      assert !Before(ranked[j], ranked[i]);
    }
  }

  // ----- the session being registered

  lemma {:induction false} LexTotal(a: string, b: string)
    requires a != b
    ensures LexLess(a, b) || LexLess(b, a)
    decreases |a|
  {
    if |a| > 0 && |b| > 0 && a[0] == b[0] {
      assert a == [a[0]] + a[1..] && b == [b[0]] + b[1..];
      LexTotal(a[1..], b[1..]);
    }
  }

  /** How many members come after `m`. */
  function CountAfter(r: seq<Member>, m: Member): (n: nat)
    ensures n <= |r|
  {
    if |r| == 0 then 0 else CountAfter(r[1..], m) + if Before(m, r[0]) then 1 else 0
  }

  lemma {:induction false} AllAfter(r: seq<Member>, m: Member)
    requires forall i :: 0 <= i < |r| ==> Before(m, r[i])
    ensures CountAfter(r, m) == |r|
    decreases |r|
  {
    if |r| > 0 { AllAfter(r[1..], m); }
  }

  /** In a sorted set everything behind a member that comes after `m` comes after `m` too. */
  lemma RestAfter(r: seq<Member>, m: Member)
    requires |r| > 0 && Sorted(r) && DistinctIds(r) && Before(m, r[0])
    ensures forall i :: 0 <= i < |r| ==> Before(m, r[i])
  {
    forall i | 0 < i < |r|
      ensures Before(m, r[i])
    {
      assert !Before(r[i], r[0]);
      LexTotal(r[i].id, r[0].id);
      BeforeTransitive(m, r[0], r[i]);
    }
  }

  /** A new member is put in front of exactly those that come after it. */
  lemma {:induction false} InsertPosition(r: seq<Member>, m: Member)
    requires Sorted(r) && DistinctIds(r) && !HasId(r, m.id)
    ensures Insert(r, m)[|r| - CountAfter(r, m)] == m
    decreases |r|
  {
    if |r| == 0 {
    } else if Before(m, r[0]) {
      RestAfter(r, m);
      AllAfter(r, m);
    } else {
      HasIdSplit(r);
      InsertPosition(r[1..], m);
    }
  }

  /** The other members of the live set. */
  function OtherMembers(s: Sessions, id: string, now: int): seq<Member> { ZRem(LiveRanking(s, now), id) }

  /** The session being registered is itself evicted exactly when as many others as the cap come after it. */
  lemma EvictedExactly(s: Sessions, configured: int, id: string, now: int)
    requires Sorted(s.ranking) && DistinctIds(s.ranking)
    ensures id in Evicted(s, configured, id, now) <==>
            CountAfter(OtherMembers(s, id, now), Member(id, now)) >= Cap(configured)
  {
    var others, m := OtherMembers(s, id, now), Member(id, now);
    var ranked := ZAdd(LiveRanking(s, now), m);
    ZRemSorted(LiveRanking(s, now), id);
    InsertPosition(others, m);
    var pos := |others| - CountAfter(others, m);
    assert ranked == Insert(others, m) && DistinctIds(ranked) && ranked[pos].id == id;
    assert id in FirstIds(ranked, Surplus(ranked, configured)) <==> pos < Surplus(ranked, configured);
  }

  /**
   After a registration the session is alive with its own binding until its deadline, and in the
   set, unless it was evicted itself; then it is neither.
   */
  lemma NewSessionExactly(s: Sessions, configured: int, id: string, binding: string, expiresAt: int, now: int)
    requires DistinctIds(s.ranking)
    ensures var s' := Register(s, configured, id, binding, expiresAt, now);
            var evicted, deadline := id in Evicted(s, configured, id, now), DeadlineOf(expiresAt, now);
            && (!evicted ==> forall t :: Get(s'.keys, id, t) == if t < deadline then Some(binding) else None)
            && (evicted ==> id !in s'.keys)
            && (HasId(s'.ranking, id) <==> !evicted)
  {
    var ranked := ZAdd(LiveRanking(s, now), Member(id, now));
    var n := Surplus(ranked, configured);
    assert HasId(ranked, id) && DistinctIds(ranked);
    var i :| 0 <= i < |ranked| && ranked[i].id == id;
    if i >= n {
      assert ranked[n..][i - n].id == id;
    }
    assert id in FirstIds(ranked, n) <==> i < n;
  }

  /** Its deadline: its expiry, in the milliseconds of the second it was registered in, or one second. */
  lemma DeadlineMeans(expiresAt: int, now: int)
    ensures DeadlineOf(expiresAt, now) == if expiresAt > now / 1000 then expiresAt * 1000 + now % 1000 else now + 1000
  {
  }

  lemma {:induction false} NoneAfter(r: seq<Member>, m: Member)
    requires forall i :: 0 <= i < |r| ==> r[i].score < m.score
    ensures CountAfter(r, m) == 0
    decreases |r|
  {
    if |r| > 0 { NoneAfter(r[1..], m); }
  }

  /** The set is sorted and its scores are instants of the run. */
  lemma {:induction false} RankingOrdered(configured: int, run: seq<Registration>, start: int)
    requires OrderedFrom(start, run)
    ensures var r := After(configured, run).ranking;
            Sorted(r) && DistinctIds(r) && forall i :: 0 <= i < |r| ==> r[i].score <= EndOf(start, run)
    decreases |run|
  {
    SetShape(NONE, configured, run);
    if |run| > 0 {
      var pre, x := run[..|run| - 1], run[|run| - 1];
      RankingOrdered(configured, pre, start);
      var s := After(configured, pre);
      OldestEvicted(s, configured, x.id, x.binding, x.expiresAt, x.at);
      ScoresBounded(s, configured, x);
    }
  }

  lemma ScoresBounded(s: Sessions, configured: int, x: Registration)
    requires Sorted(s.ranking) && forall i :: 0 <= i < |s.ranking| ==> s.ranking[i].score <= x.at
    ensures var r := Apply(s, configured, x).ranking; forall i :: 0 <= i < |r| ==> r[i].score <= x.at
  {
    ZRemSorted(LiveRanking(s, x.at), x.id);
    InsertSorted(OtherMembers(s, x.id, x.at), Member(x.id, x.at));
  }

  /**
   Over every ordered run, a session registered later than all before it is alive with its own
   binding from that instant until its deadline, and in the set: the newest login is never evicted.
   */
  lemma {:induction false} LatestSessionLives(configured: int, run: seq<Registration>, x: Registration, start: int)
    requires OrderedFrom(start, run) && EndOf(start, run) < x.at
    ensures var s := After(configured, run + [x]);
            && (forall t :: x.at <= t < Deadline(x) ==> Get(s.keys, x.id, t) == Some(x.binding))
            && HasId(s.ranking, x.id) && x.at < Deadline(x)
  {
    var s := After(configured, run);
    ContinueSnoc(NONE, configured, run, x);
    RankingOrdered(configured, run, start);
    ZRemSorted(LiveRanking(s, x.at), x.id);
    NoneAfter(OtherMembers(s, x.id, x.at), Member(x.id, x.at));
    EvictedExactly(s, configured, x.id, x.at);
    NewSessionExactly(s, configured, x.id, x.binding, x.expiresAt, x.at);
  }

  /** Two logins in one millisecond under a cap of one: the second has the smaller id, and is dead at once. */
  lemma SameInstantEvictsNewest(a: Registration, b: Registration)
    requires a == Registration("b", "", 100, 0) && b == Registration("a", "", 100, 0)
    ensures var s := Apply(Apply(NONE, 1, a), 1, b); "a" !in s.keys && Alive(s.keys, "b", 0)
  {
    NobodyEvicted(NONE, 1, a);
    var s := Apply(NONE, 1, a);
    assert s.ranking == [Member("b", 0)];
    var r := [Member("b", 0)];
    assert "a"[0] == 'a' && "b"[0] == 'b' && Before(Member("a", 0), Member("b", 0));
    assert OtherMembers(s, "a", 0) == r;
    assert r[1..] == [] && CountAfter(r, Member("a", 0)) == 1;
    EvictedExactly(s, 1, "a", 0);
    NewSessionExactly(s, 1, "a", "", 100, 0);
  }
}
