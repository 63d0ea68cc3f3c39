/** Safety of idempotent creation over every run, and exactly which deployments have it. */
module IdempotencyProofs {
  import opened Wrappers
  import opened Collections
  import opened Idempotency

  lemma StepVersions(cfg: Config, s: State, a: Action)
    requires Versions(s) && Enabled(cfg, s, a)
    ensures Versions(Apply(cfg, s, a))
  {
  }

  /** What is known of a request survives the growth of the table and of the queue. */
  lemma Framed(s: State, s': State, req: Request)
    requires PcOk(s, req) && s.born <= s'.born && s.jobs <= s'.jobs
    requires req.pc.Queueing? ==> req.pc.row !in s'.jobs && req.pc.row !in s'.dropped
    ensures PcOk(s', req)
  {
  }

  /** The request an action moves, if any. */
  function Actor(a: Action): Option<nat> {
    match a
    case Tick(_) => None
    case LeaseExpires(_) => None
    case KeyReleased(_) => None
    case _ => Some(a.p)
  }

  lemma OthersFramed(cfg: Config, s: State, a: Action, q: nat)
    requires Inv(cfg, s) && Enabled(cfg, s, a) && q < |s.reqs| && Actor(a) != Some(q)
    ensures var s' := Apply(cfg, s, a); |s'.reqs| == |s.reqs| && s'.reqs[q] == s.reqs[q] && PcOk(s', s.reqs[q])
  {
    Framed(s, Apply(cfg, s, a), s.reqs[q]);
  }

  /** A row any version of the table reports for a key was inserted for that key. */
  lemma {:induction false} FoundRowOk(s: State, version: nat, k: Key)
    requires Versions(s) && version <= |s.past|
    ensures var t := if version == |s.past| then s.table else s.past[version];
            var found := FindActive(t, k, s.now);
            found.Some? ==> NamesOwnRow(s, Some(k), found.value)
  {
    var t := if version == |s.past| then s.table else s.past[version];
    assert VersionOf(t, s.born);
  }

  lemma InsertOk(cfg: Config, s: State, p: nat, fault: Fault)
    requires Versions(s) && JobAccounting(s) && p < |s.reqs| && s.reqs[p].pc.Creating?
    ensures var s' := DoInsert(cfg, s, p, fault); |s'.reqs| == |s.reqs| && PcOk(s', s'.reqs[p])
  {
  }

  lemma EnqueueOk(cfg: Config, s: State, p: nat, ok: bool)
    requires p < |s.reqs| && PcOk(s, s.reqs[p]) && s.reqs[p].pc.Queueing?
    ensures var s' := Apply(cfg, s, Enqueue(p, ok)); |s'.reqs| == |s.reqs| && PcOk(s', s'.reqs[p])
  {
  }

  lemma FindOk(cfg: Config, s: State, p: nat, version: nat)
    requires Versions(s) && Enabled(cfg, s, Find(p, version))
    ensures var s' := Apply(cfg, s, Find(p, version)); |s'.reqs| == |s.reqs| && PcOk(s', s'.reqs[p])
  {
    FoundRowOk(s, version, s.reqs[p].key.value);
  }

  lemma ActorOk(cfg: Config, s: State, a: Action)
    requires Versions(s) && JobAccounting(s) && Enabled(cfg, s, a) && Actor(a).Some? && PcOk(s, s.reqs[a.p])
    ensures var s' := Apply(cfg, s, a); a.p < |s'.reqs| && PcOk(s', s'.reqs[a.p])
  {
    match a
    case Find(p, version) => FindOk(cfg, s, p, version);
    case Insert(p, fault) => InsertOk(cfg, s, p, fault);
    case Enqueue(p, ok) => EnqueueOk(cfg, s, p, ok);
    case _ =>
  }

  lemma StepRequests(cfg: Config, s: State, a: Action)
    requires Inv(cfg, s) && Enabled(cfg, s, a)
    ensures Requests(Apply(cfg, s, a))
  {
    var s' := Apply(cfg, s, a);
    assert |s'.reqs| == |s.reqs|;
    forall q | 0 <= q < |s'.reqs|
      ensures PcOk(s', s'.reqs[q])
    {
      if Actor(a) == Some(q) {
        ActorOk(cfg, s, a);
      } else {
        OthersFramed(cfg, s, a, q);
      }
    }
  }

  lemma StillInFlight(s: State, s': State, p: nat, r: nat)
    requires p < |s.reqs| == |s'.reqs| && InFlight(s, r) && s.reqs[p].pc != Queueing(r)
    requires forall q :: 0 <= q < |s.reqs| && q != p ==> s'.reqs[q] == s.reqs[q]
    ensures InFlight(s', r)
  {
    var q :| 0 <= q < |s.reqs| && s.reqs[q].pc == Queueing(r);
    assert s'.reqs[q].pc == Queueing(r);
  }

  /** A step leaves every row it does not publish where it was. */
  lemma StepCoversRows(cfg: Config, s: State, a: Action, r: nat)
    requires Versions(s) && JobAccounting(s) && Enabled(cfg, s, a) && r < |Apply(cfg, s, a).table|
    ensures var s' := Apply(cfg, s, a); r in s'.jobs || r in s'.dropped || InFlight(s', r)
  {
    var s' := Apply(cfg, s, a);
    if r == |s.table| {
      assert s'.reqs[a.p].pc == Queueing(r);
    } else if InFlight(s, r) && Actor(a).Some? && s.reqs[a.p].pc != Queueing(r) {
      StillInFlight(s, s', a.p, r);
    } else if InFlight(s, r) && Actor(a).None? {
      assert s'.reqs == s.reqs;
    }
  }

  lemma StepQueue(cfg: Config, s: State, a: Action)
    requires Versions(s) && Requests(s) && QueueOk(s) && Enabled(cfg, s, a)
    ensures QueueOk(Apply(cfg, s, a))
  {
    if a.Enqueue? {
      assert PcOk(s, s.reqs[a.p]);
    }
  }

  /** A step puts at most one request before its publish, and only for the row it has just inserted. */
  lemma QueueingBefore(cfg: Config, s: State, a: Action, q: nat)
    requires Versions(s) && Enabled(cfg, s, a) && q < |s.reqs|
    ensures var s' := Apply(cfg, s, a);
            && |s'.reqs| == |s.reqs|
            && (s'.reqs[q].pc.Queueing? ==>
                  s'.reqs[q].pc == s.reqs[q].pc || (Actor(a) == Some(q) && s'.reqs[q].pc.row == |s.table|))
  {
  }

  lemma StepPublisher(cfg: Config, s: State, a: Action)
    requires Versions(s) && Requests(s) && SolePublisher(s) && Enabled(cfg, s, a)
    ensures SolePublisher(Apply(cfg, s, a))
  {
    var s' := Apply(cfg, s, a);
    assert |s'.reqs| == |s.reqs|;
    forall p, q | 0 <= p < q < |s'.reqs| && s'.reqs[p].pc.Queueing?
      ensures s'.reqs[p].pc != s'.reqs[q].pc
    {
      QueueingBefore(cfg, s, a, p);
      QueueingBefore(cfg, s, a, q);
      assert PcOk(s, s.reqs[p]) && PcOk(s, s.reqs[q]);
    }
  }

  lemma StepJobs(cfg: Config, s: State, a: Action)
    requires Versions(s) && Requests(s) && JobAccounting(s) && Enabled(cfg, s, a)
    ensures JobAccounting(Apply(cfg, s, a))
  {
    StepQueue(cfg, s, a);
    StepPublisher(cfg, s, a);
    forall r | 0 <= r < |Apply(cfg, s, a).table|
      ensures r in Apply(cfg, s, a).jobs || r in Apply(cfg, s, a).dropped || InFlight(Apply(cfg, s, a), r)
    {
      StepCoversRows(cfg, s, a, r);
    }
  }

  lemma StepBornExpired(cfg: Config, s: State, a: Action)
    requires Versions(s) && cfg.ttl <= 0 && BornExpired(s) && Enabled(cfg, s, a)
    ensures BornExpired(Apply(cfg, s, a))
  {
  }

  lemma StepIndex(cfg: Config, s: State, a: Action)
    requires Versions(s) && cfg.uniqueIndex && IndexRespected(s) && Enabled(cfg, s, a)
    ensures IndexRespected(Apply(cfg, s, a))
  {
  }

  /** A request that is in its key section after a step was in it before, or has just taken the lease. */
  lemma KeySectionBefore(cfg: Config, s: State, a: Action, q: nat)
    requires Enabled(cfg, s, a) && q < |s.reqs|
    ensures var s' := Apply(cfg, s, a);
            && |s'.reqs| == |s.reqs| && s'.reqs[q].key == s.reqs[q].key
            && (s.reqs[q].key.Some? && InKeySection(s'.reqs[q].pc) ==>
              InKeySection(s.reqs[q].pc) || a == TakeKeyLock(q))
  {
  }

  /** A held key lease is lost only by its holder's own drop, or by expiry. */
  lemma LeaseSurvives(cfg: Config, s: State, a: Action, q: nat, k: Key)
    requires !cfg.leasesExpire && Enabled(cfg, s, a) && q < |s.reqs| && s.reqs[q].key == Some(k)
    requires KeyLock(k) in s.locks && s.locks[KeyLock(k)] == q && InKeySection(Apply(cfg, s, a).reqs[q].pc)
    ensures KeyLock(k) in Apply(cfg, s, a).locks && Apply(cfg, s, a).locks[KeyLock(k)] == q
  {
  }

  lemma StepLeaseHeld(cfg: Config, s: State, a: Action)
    requires !cfg.leasesExpire && LeaseHeld(s) && Enabled(cfg, s, a)
    ensures LeaseHeld(Apply(cfg, s, a))
  {
    var s' := Apply(cfg, s, a);
    assert |s'.reqs| == |s.reqs|;
    forall q, k | 0 <= q < |s'.reqs| && s'.reqs[q].key == Some(k) && InKeySection(s'.reqs[q].pc)
      ensures KeyLock(k) in s'.locks && s'.locks[KeyLock(k)] == q
    {
      KeySectionBefore(cfg, s, a, q);
      if a != TakeKeyLock(q) {
        LeaseSurvives(cfg, s, a, q, k);
      }
    }
  }

  /** A request newly at its insert has just seen no unexpired row; its rows' table is the one it read. */
  lemma NewlyClear(cfg: Config, s: State, a: Action, q: nat, i: nat, k: Key)
    requires LeasesProtect(cfg) && Enabled(cfg, s, a) && Actor(a) == Some(q) && s.reqs[q].key == Some(k)
    requires Apply(cfg, s, a).reqs[q].pc.Creating? && i < |Apply(cfg, s, a).table|
    ensures !Live(Apply(cfg, s, a).table[i], k, Apply(cfg, s, a).now)
  {
  }

  /** A step of anyone else makes no row of the key unexpired while its lease is held. */
  lemma StaysClear(cfg: Config, s: State, a: Action, q: nat, i: nat, k: Key)
    requires LeasesProtect(cfg) && Enabled(cfg, s, a) && LeaseHeld(s) && Actor(a) != Some(q)
    requires q < |s.reqs| && s.reqs[q].key == Some(k) && s.reqs[q].pc.Creating? && i < |Apply(cfg, s, a).table|
    requires forall j :: 0 <= j < |s.table| ==> !Live(s.table[j], k, s.now)
    ensures !Live(Apply(cfg, s, a).table[i], k, Apply(cfg, s, a).now)
  {
    if a.Insert? && s.reqs[a.p].key == Some(k) {
      assert InKeySection(s.reqs[a.p].pc) && InKeySection(s.reqs[q].pc);
    }
  }

  lemma StepClearToInsert(cfg: Config, s: State, a: Action)
    requires Versions(s) && LeasesProtect(cfg) && Exclusion(s) && Enabled(cfg, s, a)
    ensures ClearToInsert(Apply(cfg, s, a))
  {
    var s' := Apply(cfg, s, a);
    assert |s'.reqs| == |s.reqs|;
    forall q, i, k | 0 <= q < |s'.reqs| && s'.reqs[q].key == Some(k) && s'.reqs[q].pc.Creating? && 0 <= i < |s'.table|
      ensures !Live(s'.table[i], k, s'.now)
    {
      KeySectionBefore(cfg, s, a, q);
      if Actor(a) == Some(q) {
        NewlyClear(cfg, s, a, q, i, k);
      } else {
        assert s'.reqs[q] == s.reqs[q];
        StaysClear(cfg, s, a, q, i, k);
      }
    }
  }

  lemma StepSuccession(cfg: Config, s: State, a: Action)
    requires Versions(s) && LeasesProtect(cfg) && Exclusion(s) && Succession(s) && Enabled(cfg, s, a)
    ensures Succession(Apply(cfg, s, a))
  {
  }

  lemma StepNoEarlyLoss(cfg: Config, s: State, a: Action)
    requires Versions(s) && !cfg.earlyRelease && NoEarlyLoss(s) && Enabled(cfg, s, a)
    ensures NoEarlyLoss(Apply(cfg, s, a))
  {
  }

  lemma StepInv(cfg: Config, s: State, a: Action)
    requires Inv(cfg, s) && Enabled(cfg, s, a)
    ensures Inv(cfg, Apply(cfg, s, a))
  {
    StepVersions(cfg, s, a);
    StepRequests(cfg, s, a);
    StepJobs(cfg, s, a);
    if cfg.ttl <= 0 { StepBornExpired(cfg, s, a); }
    if cfg.uniqueIndex { StepIndex(cfg, s, a); }
    if !cfg.leasesExpire { StepLeaseHeld(cfg, s, a); }
    if !cfg.earlyRelease { StepNoEarlyLoss(cfg, s, a); }
    if LeasesProtect(cfg) {
      StepClearToInsert(cfg, s, a);
      StepSuccession(cfg, s, a);
    }
  }

  lemma {:induction false} RunInv(cfg: Config, s: State, acts: seq<Action>)
    requires Inv(cfg, s) && IsRun(cfg, s, acts)
    ensures Inv(cfg, After(cfg, s, acts))
    decreases |acts|
  {
    if |acts| > 0 {
      StepInv(cfg, s, acts[0]);
      RunInv(cfg, Apply(cfg, s, acts[0]), acts[1..]);
    }
  }

  /** Every state of every run satisfies the invariant, whatever the deployment. */
  lemma ReachableInv(cfg: Config, s: State)
    requires Reachable(cfg, s)
    ensures Inv(cfg, s)
  {
    var s0, acts :| RunsTo(cfg, s0, acts, s);
    RunInv(cfg, s0, acts);
  }

  lemma GuardedSuccession(cfg: Config, s: State)
    requires Inv(cfg, s) && Guarded(cfg)
    ensures Succession(s)
  {
  }

  lemma SuccessionIsUnique(s: State)
    requires Versions(s) && Requests(s) && QueueOk(s) && Succession(s)
    ensures Unique(s)
  {
    forall p: nat, r: nat, f: nat, k |
      Answered(s, p, r) && s.reqs[p].key == Some(k) && IsFirstRow(s, f, k) && f < |s.table| &&
        Live(s.table[f], k, s.now)
      ensures r == f
    {
      assert PcOk(s, s.reqs[p]);
      assert Holds(s.born[r], k);
    }
  }

  /** Where no key is lost early, a row that has not expired still holds its key. */
  lemma UniqueIsSafe(s: State)
    requires Versions(s) && Unique(s) && (NoEarlyLoss(s) || BornExpired(s))
    ensures Safe(s)
  {
    forall p: nat, r: nat, f: nat, k |
      Answered(s, p, r) && s.reqs[p].key == Some(k) && IsFirstRow(s, f, k) && s.now < s.born[f].value.expiresAt
      ensures r == f
    {
      assert Live(s.table[f], k, s.now);
    }
  }

  // ----- the unguarded deployments

  lemma {:induction false} AfterSnoc(cfg: Config, s: State, acts: seq<Action>, a: Action)
    requires IsRun(cfg, s, acts) && Enabled(cfg, After(cfg, s, acts), a)
    ensures IsRun(cfg, s, acts + [a]) && After(cfg, s, acts + [a]) == Apply(cfg, After(cfg, s, acts), a)
    decreases |acts|
  {
    if |acts| == 0 {
      assert (acts + [a])[1..] == [];
    } else {
      AfterSnoc(cfg, Apply(cfg, s, acts[0]), acts[1..], a);
      assert (acts + [a])[1..] == acts[1..] + [a];
    }
  }

  lemma ReachableStep(cfg: Config, s: State, a: Action)
    requires Reachable(cfg, s) && Enabled(cfg, s, a)
    ensures Reachable(cfg, Apply(cfg, s, a))
  {
    var s0, acts :| RunsTo(cfg, s0, acts, s);
    AfterSnoc(cfg, s0, acts, a);
    assert RunsTo(cfg, s0, acts + [a], Apply(cfg, s, a));
  }

  /** Three requests for one key, from different phone numbers. */
  function ThreeRequests(): State {
    State(0, [], [], [], map[], [], [],
          [Request(Some("k"), "1", Start), Request(Some("k"), "2", Start), Request(Some("k"), "3", Start)])
  }

  lemma ThreeRequestsReachable(cfg: Config)
    ensures Reachable(cfg, ThreeRequests())
  {
    assert RunsTo(cfg, ThreeRequests(), [], ThreeRequests());
  }

  predicate SeesNothing(cfg: Config, s: State, stale: bool) {
    if stale then cfg.staleReads && |s.past| > 0 && s.past[0] == []
    else forall i :: 0 <= i < |s.table| ==> !Holds(s.table[i], "k")
  }

  lemma Lookup(cfg: Config, s: State, p: nat, stale: bool) returns (s': State)
    requires Reachable(cfg, s) && p < |s.reqs| && s.reqs[p].pc.Releasing? && s.reqs[p].key == Some("k")
    requires SeesNothing(cfg, s, stale) && ReleaseExpired(s.table, "k", s.now) == s.table
    ensures Reachable(cfg, s') && SeesNothing(cfg, s', stale)
    ensures s' == Goto(s.(past := s.past + [s.table]), p, AfterFind(cfg, s, s.reqs[p].pc.stage, None))
  {
    ReachableStep(cfg, s, ReleaseOld(p));
    s' := Apply(cfg, s, ReleaseOld(p));
    var find := Find(p, if stale then 0 else |s'.past|);
    ReachableStep(cfg, s', find);
    s' := Apply(cfg, s', find);
  }

  lemma ReachesPhone(cfg: Config, s: State, p: nat, stale: bool) returns (s': State)
    requires Reachable(cfg, s) && AtPc(s, p, Start) && s.reqs[p].key == Some("k") && KeyLock("k") !in s.locks
    requires SeesNothing(cfg, s, stale) && ReleaseExpired(s.table, "k", s.now) == s.table
    ensures Reachable(cfg, s') && SeesNothing(cfg, s', stale)
    ensures s' == Goto(s.(past := s.past + [s.table], locks := s.locks[KeyLock("k") := p]), p, AwaitPhone)
  {
    ReachableStep(cfg, s, TakeKeyLock(p));
    s' := Lookup(cfg, Apply(cfg, s, TakeKeyLock(p)), p, stale);
  }

  /** Request `p` goes from its start to the point of inserting. */
  lemma ReachesInsert(cfg: Config, s: State, p: nat, stale: bool) returns (s': State)
    requires Reachable(cfg, s) && AtPc(s, p, Start) && s.reqs[p].key == Some("k")
    requires KeyLock("k") !in s.locks && PhoneLock(s.reqs[p].phone) !in s.locks
    requires SeesNothing(cfg, s, stale) && ReleaseExpired(s.table, "k", s.now) == s.table
    ensures Reachable(cfg, s')
    ensures s' == Goto(s.(past := s.past + [s.table, s.table],
                          locks := s.locks[KeyLock("k") := p][PhoneLock(s.reqs[p].phone) := p]),
                       p, Creating(s.now + cfg.ttl))
  {
    s' := ReachesPhone(cfg, s, p, stale);
    ReachableStep(cfg, s', TakePhoneLock(p));
    s' := Apply(cfg, s', TakePhoneLock(p));
    s' := Lookup(cfg, s', p, stale);
    assert s.past + [s.table] + [s.table] == s.past + [s.table, s.table];
  }

  /** Without the index, a lease that runs out lets two requests insert the same key. */
  lemma LeaseRace(cfg: Config)
    requires cfg.ttl > 0 && !cfg.uniqueIndex && cfg.leasesExpire
    ensures !AlwaysUnique(cfg)
  {
    ThreeRequestsReachable(cfg);
    var s := ReachesInsert(cfg, ThreeRequests(), 0, false);
    ReachableStep(cfg, s, LeaseExpires(KeyLock("k")));
    s := Apply(cfg, s, LeaseExpires(KeyLock("k")));
    s := ReachesInsert(cfg, s, 1, false);
    ReachableStep(cfg, s, Insert(0, NoFault));
    s := Apply(cfg, s, Insert(0, NoFault));
    ReachableStep(cfg, s, Insert(1, NoFault));
    s := Apply(cfg, s, Insert(1, NoFault));
    assert Live(s.table[0], "k", s.now) && Live(s.table[1], "k", s.now);
    assert !Unique(s);
  }

  /** A request on its way out drops both leases and answers. */
  lemma Answers(cfg: Config, s: State, p: nat, result: Outcome) returns (s': State)
    requires Reachable(cfg, s) && AtPc(s, p, LeavingPhone(result, false)) && s.reqs[p].key == Some("k")
    ensures Reachable(cfg, s')
    ensures s' == Goto(s.(locks := Unlock(Unlock(s.locks, PhoneLock(s.reqs[p].phone), p), KeyLock("k"), p)), p,
        Done(result))
  {
    s' := LeavesPhone(cfg, s, p, result);
    ReachableStep(cfg, s', DropKeyLock(p, false));
    s' := Apply(cfg, s', DropKeyLock(p, false));
  }

  /** A request on its way out drops the phone's lease. */
  lemma LeavesPhone(cfg: Config, s: State, p: nat, result: Outcome) returns (s': State)
    requires Reachable(cfg, s) && AtPc(s, p, LeavingPhone(result, false)) && s.reqs[p].key == Some("k")
    ensures Reachable(cfg, s')
    ensures s' == Goto(s.(locks := Unlock(s.locks, PhoneLock(s.reqs[p].phone), p)), p, LeavingKey(result))
  {
    ReachableStep(cfg, s, DropPhoneLock(p, false));
    s' := Apply(cfg, s, DropPhoneLock(p, false));
  }

  /** A request inserts its row. */
  lemma Inserts(cfg: Config, s: State, p: nat, expiresAt: int) returns (s': State)
    requires Reachable(cfg, s) && AtPc(s, p, Creating(expiresAt)) && s.reqs[p].key == Some("k")
    requires !cfg.uniqueIndex || SeesNothing(cfg, s, false)
    ensures Reachable(cfg, s')
    ensures var row := Some(Hold("k", expiresAt));
            s' == Goto(s.(table := s.table + [row], born := s.born + [row], past := s.past + [s.table]), p,
              Queueing(|s.table|))
  {
    ReachableStep(cfg, s, Insert(p, NoFault));
    s' := Apply(cfg, s, Insert(p, NoFault));
  }

  /** A request inserts its row and publishes it. */
  lemma Publishes(cfg: Config, s: State, p: nat, expiresAt: int) returns (s': State)
    requires Reachable(cfg, s) && AtPc(s, p, Creating(expiresAt)) && s.reqs[p].key == Some("k")
    requires !cfg.uniqueIndex || SeesNothing(cfg, s, false)
    ensures Reachable(cfg, s')
    ensures var row := Some(Hold("k", expiresAt));
            s' == Goto(s.(table := s.table + [row], born := s.born + [row], past := s.past + [s.table],
                          jobs := s.jobs + [|s.table|]),
                       p, LeavingPhone(Created(|s.table|), false))
  {
    s' := Inserts(cfg, s, p, expiresAt);
    ReachableStep(cfg, s', Enqueue(p, true));
    s' := Apply(cfg, s', Enqueue(p, true));
  }

  /** A request takes the key's lease and finds a row in the given version of the table. */
  lemma Finds(cfg: Config, s: State, p: nat, version: nat, r: nat) returns (s': State)
    requires Reachable(cfg, s) && AtPc(s, p, Start) && s.reqs[p].key == Some("k") && s.locks == map[]
    requires ReleaseExpired(s.table, "k", s.now) == s.table && version < |s.past| + 1 &&
        (version < |s.past| ==> cfg.staleReads)
    requires FindActive(if version < |s.past| then s.past[version] else s.table, "k", s.now) == Some(r)
    ensures Reachable(cfg, s')
    ensures s' == Goto(s.(locks := map[KeyLock("k") := p], past := s.past + [s.table]), p, LeavingKey(Reused(r)))
  {
    ReachableStep(cfg, s, TakeKeyLock(p));
    s' := Apply(cfg, s, TakeKeyLock(p));
    ReachableStep(cfg, s', ReleaseOld(p));
    s' := Apply(cfg, s', ReleaseOld(p));
    var find := Find(p, if version < |s.past| then version else |s'.past|);
    ReachableStep(cfg, s', find);
    s' := Apply(cfg, s', find);
  }

  /** A request runs alone from its start to its answer. */
  lemma Completes(cfg: Config, s: State, p: nat) returns (s': State)
    requires Reachable(cfg, s) && AtPc(s, p, Start) && s.reqs[p].key == Some("k") && s.locks == map[]
    requires SeesNothing(cfg, s, false) && ReleaseExpired(s.table, "k", s.now) == s.table
    ensures Reachable(cfg, s') && s'.now == s.now && s'.locks == map[] &&
        s'.table == s.table + [Some(Hold("k", s.now + cfg.ttl))]
    ensures s'.born == s.born + [Some(Hold("k", s.now + cfg.ttl))] && s'.jobs == s.jobs + [|s.table|]
    ensures s'.past == s.past + [s.table, s.table] + [s.table] &&
        s'.reqs == s.reqs[p := s.reqs[p].(pc := Done(Created(|s.table|)))]
  {
    s' := ReachesInsert(cfg, s, p, false);
    s' := Publishes(cfg, s', p, s.now + cfg.ttl);
    s' := Answers(cfg, s', p, Created(|s.table|));
  }

  /** Without the index, a lagging replica does the same with no overlap at all. */
  lemma StaleReplica(cfg: Config)
    requires cfg.ttl > 0 && !cfg.uniqueIndex && cfg.staleReads
    ensures !AlwaysUnique(cfg)
  {
    ThreeRequestsReachable(cfg);
    var s := Completes(cfg, ThreeRequests(), 0);
    s := ReachesInsert(cfg, s, 1, true);
    ReachableStep(cfg, s, Insert(1, NoFault));
    s := Apply(cfg, s, Insert(1, NoFault));
    assert Live(s.table[0], "k", s.now) && Live(s.table[1], "k", s.now);
    assert !Unique(s);
  }

  /**
   In every run a deployment keeps one unexpired row per key, answers with the key's first row for
   as long as that row holds the key and is unexpired, and publishes no row twice, exactly when it
   is guarded: by the unique index, or by leases that never run out together with reads that are
   never stale, or because keys have no lifetime at all.
   */
  lemma UniqueExactlyWhenGuarded(cfg: Config)
    ensures AlwaysUnique(cfg) <==> Guarded(cfg)
  {
    if Guarded(cfg) {
      forall s | Reachable(cfg, s)
        ensures Unique(s)
      {
        ReachableInv(cfg, s);
        GuardedSuccession(cfg, s);
        SuccessionIsUnique(s);
      }
    } else if cfg.leasesExpire {
      LeaseRace(cfg);
    } else {
      StaleReplica(cfg);
    }
  }

  /**
   A replay after the first transaction has reached a terminal status, long before its key expires:
   two requests for one key, one after the other, each create and publish a row of their own.
   */
  lemma ReplayAfterRelease(cfg: Config) returns (s: State)
    requires cfg.ttl > 0 && cfg.earlyRelease
    ensures Reachable(cfg, s) && s.now == 0 && s.jobs == [0, 1]
    ensures |s.born| == 2 && s.born[0] == Some(Hold("k", cfg.ttl)) && Live(s.born[0], "k", s.now)
    ensures Answered(s, 0, 0) && Answered(s, 1, 1) && s.reqs[0].key == s.reqs[1].key == Some("k")
    ensures !AnswersNameFirstRow(s)
  {
    ThreeRequestsReachable(cfg);
    s := Completes(cfg, ThreeRequests(), 0);
    ReachableStep(cfg, s, KeyReleased(0));
    s := Apply(cfg, s, KeyReleased(0));
    s := Completes(cfg, s, 1);
    assert IsFirstRow(s, 0, "k") && s.now < s.born[0].value.expiresAt;
    assert Answered(s, 1, 1) && s.reqs[1].key == Some("k");
  }

  /**
   Main theorem. In every run a deployment keeps one unexpired row per key, answers every request
   for a key with the key's first row until that row expires, and publishes no row twice, exactly
   when it is protected: it is guarded and no row loses its key before it expires, or keys have no
   lifetime at all.
   */
  lemma SafeExactlyWhenProtected(cfg: Config)
    ensures AlwaysSafe(cfg) <==> Protected(cfg)
  {
    UniqueExactlyWhenGuarded(cfg);
    if Protected(cfg) {
      forall s | Reachable(cfg, s)
        ensures Safe(s)
      {
        ReachableInv(cfg, s);
        UniqueIsSafe(s);
      }
    } else if cfg.earlyRelease {
      var s := ReplayAfterRelease(cfg);
    } else if AlwaysSafe(cfg) {
      SafeIsUnique(cfg);
    }
  }

  lemma SafeIsUnique(cfg: Config)
    requires AlwaysSafe(cfg)
    ensures AlwaysUnique(cfg)
  {
    forall s | Reachable(cfg, s)
      ensures Unique(s)
    {
      ReachableInv(cfg, s);
      assert Safe(s);
      forall p: nat, r: nat, f: nat, k |
        Answered(s, p, r) && s.reqs[p].key == Some(k) && IsFirstRow(s, f, k) && f < |s.table| &&
          Live(s.table[f], k, s.now)
        ensures r == f
      {
        assert s.table[f] == s.born[f];
      }
    }
  }

  /** In every deployment each row is published at most once, and every answered creation has its job. */
  lemma RowsPublishedOnce(cfg: Config, s: State)
    requires Reachable(cfg, s)
    ensures OneJobPerRow(s) && JobAccounting(s)
    ensures forall p: nat, r: nat :: p < |s.reqs| && s.reqs[p].pc == Done(Created(r)) ==> r in s.jobs
  {
    ReachableInv(cfg, s);
    forall p: nat, r: nat | p < |s.reqs| && s.reqs[p].pc == Done(Created(r))
      ensures r in s.jobs
    {
      assert PcOk(s, s.reqs[p]);
    }
  }

  // ----- answers name the unexpired row

  /** Any version a find may read reports the key's unexpired row, if it reports one. */
  lemma FoundIsCurrent(cfg: Config, s: State, p: nat, version: nat, r: nat, j: nat)
    requires Inv(cfg, s) && cfg.ttl > 0 && UpToDate(cfg) && Enabled(cfg, s, Find(p, version)) && j < |s.table|
    requires FindActive(if version == |s.past| then s.table else s.past[version], s.reqs[p].key.value, s.now) == Some(r)
    requires Live(s.table[j], s.reqs[p].key.value, s.now)
    ensures j == r
  {
    var t := if version == |s.past| then s.table else s.past[version];
    assert VersionOf(t, s.born) && Live(s.born[r], s.reqs[p].key.value, s.now);
    GuardedSuccession(cfg, s);
    assert Live(s.table[r], s.reqs[p].key.value, s.now);
    assert SameKey(s.born[j], s.born[r]);
  }

  /** An insert that goes through finds no unexpired row of its key. */
  lemma InsertedIsCurrent(cfg: Config, s: State, p: nat, fault: Fault, r: nat, j: nat)
    requires Inv(cfg, s) && cfg.ttl > 0 && UpToDate(cfg) && Enabled(cfg, s, Insert(p, fault)) && s.reqs[p].key.Some?
    requires var s' := DoInsert(cfg, s, p, fault);
             Names(s'.reqs[p].pc, r) && j < |s'.table| && Live(s'.table[j], s.reqs[p].key.value, s'.now)
    ensures j == r
  {
  }

  /** Any other action of a request keeps the row it names, and the table. */
  lemma KeepsName(cfg: Config, s: State, a: Action, r: nat)
    requires Enabled(cfg, s, a) && Actor(a).Some? && !a.Find? && !a.Insert? && Names(Apply(cfg, s, a).reqs[a.p].pc, r)
    ensures Names(s.reqs[a.p].pc, r) && Apply(cfg, s, a).table == s.table && Apply(cfg, s, a).now == s.now
  {
  }

  /** The request an action moves names the only unexpired row of its key. */
  lemma ActorNamesCurrent(cfg: Config, s: State, a: Action, r: nat, j: nat)
    requires Inv(cfg, s) && cfg.ttl > 0 && UpToDate(cfg) && NamesCurrent(s) && Enabled(cfg, s, a)
    requires Actor(a).Some? && s.reqs[a.p].key.Some?
    requires var s' := Apply(cfg, s, a);
             Names(s'.reqs[a.p].pc, r) && j < |s'.table| && Live(s'.table[j], s.reqs[a.p].key.value, s'.now)
    ensures j == r
  {
    if a.Find? {
      FoundIsCurrent(cfg, s, a.p, a.version, r, j);
    } else if a.Insert? {
      InsertedIsCurrent(cfg, s, a.p, a.fault, r, j);
    } else {
      KeepsName(cfg, s, a, r);
    }
  }

  /** Nobody else makes a row of a key unexpired while its lease is held. */
  lemma OthersNameCurrent(cfg: Config, s: State, a: Action, q: nat, k: Key, r: nat, j: nat)
    requires Inv(cfg, s) && !cfg.leasesExpire && NamesCurrent(s) && Enabled(cfg, s, a)
    requires q < |s.reqs| && Actor(a) != Some(q) && s.reqs[q].key == Some(k) && Names(s.reqs[q].pc, r)
    requires j < |Apply(cfg, s, a).table| && Live(Apply(cfg, s, a).table[j], k, Apply(cfg, s, a).now)
    ensures j == r
  {
    assert InKeySection(s.reqs[q].pc);
    if a.Insert? {
      assert InKeySection(s.reqs[a.p].pc);
    }
    assert j < |s.table| && Live(s.table[j], k, s.now);
  }

  lemma StepNamesCurrent(cfg: Config, s: State, a: Action)
    requires Inv(cfg, s) && cfg.ttl > 0 && UpToDate(cfg) && NamesCurrent(s) && Enabled(cfg, s, a)
    ensures NamesCurrent(Apply(cfg, s, a))
  {
    var s' := Apply(cfg, s, a);
    forall q, k, r: nat, j |
      0 <= q < |s'.reqs| && s'.reqs[q].key == Some(k) && Names(s'.reqs[q].pc, r) && 0 <= j < |s'.table| &&
        Live(s'.table[j], k, s'.now)
      ensures j == r
    {
      KeySectionBefore(cfg, s, a, q);
      if Actor(a) == Some(q) {
        ActorNamesCurrent(cfg, s, a, r, j);
      } else {
        OthersFramed(cfg, s, a, q);
        OthersNameCurrent(cfg, s, a, q, k, r, j);
      }
    }
  }

  lemma {:induction false} RunNamesCurrent(cfg: Config, s: State, acts: seq<Action>)
    requires Inv(cfg, s) && cfg.ttl > 0 && UpToDate(cfg) && NamesCurrent(s) && IsRun(cfg, s, acts)
    ensures NamesCurrent(After(cfg, s, acts))
    decreases |acts|
  {
    if |acts| > 0 {
      StepInv(cfg, s, acts[0]);
      StepNamesCurrent(cfg, s, acts[0]);
      RunNamesCurrent(cfg, Apply(cfg, s, acts[0]), acts[1..]);
    }
  }

  lemma NamesCurrentSuffices(s: State)
    requires NamesCurrent(s)
    ensures AnswersCurrent(s)
  {
    forall p, k, r: nat, j |
      0 <= p < |s.reqs| && s.reqs[p].key == Some(k) && Brings(s.reqs[p].pc, r) && 0 <= j < |s.table| &&
        Live(s.table[j], k, s.now)
      ensures j == r
    {
      assert Names(s.reqs[p].pc, r);
    }
  }

  /** A request outlives its lease and its row; another request takes the key before it answers. */
  lemma LateAnswer(cfg: Config)
    requires cfg.ttl > 0 && cfg.leasesExpire
    ensures !AlwaysCurrent(cfg)
  {
    var s := OutlivesItsRow(cfg);
    s := ReachesInsert(cfg, s, 1, false);
    s := Inserts(cfg, s, 1, 2 * cfg.ttl);
    assert Brings(s.reqs[0].pc, 0) && Live(s.table[1], "k", s.now);
    assert !AnswersCurrent(s);
  }

  lemma OutlivesItsRow(cfg: Config) returns (s: State)
    requires cfg.ttl > 0 && cfg.leasesExpire
    ensures Reachable(cfg, s) && s.now == cfg.ttl && s.table == [None] && s.locks == map[]
    ensures s.reqs == ThreeRequests().reqs[0 := Request(Some("k"), "1", LeavingKey(Created(0)))]
  {
    ThreeRequestsReachable(cfg);
    s := ReachesInsert(cfg, ThreeRequests(), 0, false);
    s := Publishes(cfg, s, 0, cfg.ttl);
    s := LeavesPhone(cfg, s, 0, Created(0));
    ReachableStep(cfg, s, Tick(cfg.ttl));
    s := Apply(cfg, s, Tick(cfg.ttl));
    ReachableStep(cfg, s, KeyReleased(0));
    s := Apply(cfg, s, KeyReleased(0));
    ReachableStep(cfg, s, LeaseExpires(KeyLock("k")));
    s := Apply(cfg, s, LeaseExpires(KeyLock("k")));
  }

  /** Request 0 has lost the key's lease to request 1; both are about to insert. */
  lemma BothAtInsert(cfg: Config) returns (s: State)
    requires cfg.leasesExpire
    ensures Reachable(cfg, s) && s.now == 0 && s.table == [] && s.locks == BOTH_LOCKS
    ensures s.reqs == [Request(Some("k"), "1", Creating(cfg.ttl)), Request(Some("k"), "2", Creating(cfg.ttl)),
        Request(Some("k"), "3", Start)]
  {
    ThreeRequestsReachable(cfg);
    s := ReachesInsert(cfg, ThreeRequests(), 0, false);
    ReachableStep(cfg, s, LeaseExpires(KeyLock("k")));
    s := Apply(cfg, s, LeaseExpires(KeyLock("k")));
    s := ReachesInsert(cfg, s, 1, false);
  }

  const BOTH_LOCKS: map<Lock, nat> := map[PhoneLock("1") := 0, KeyLock("k") := 1, PhoneLock("2") := 1]

  /**
   Where rows may also lose their key early, even a request that owns its lease to the end answers
   with such a row while a request that had lost its own has made another one.
   */
  lemma OvertakenAnswer(cfg: Config) returns (s: State, s': State)
    requires cfg.ttl > 0 && cfg.leasesExpire && cfg.earlyRelease
    ensures Reachable(cfg, s) && KeyLock("k") in s.locks && s.locks[KeyLock("k")] == 1
    ensures Enabled(cfg, s, DropKeyLock(1, false))
    ensures s' == Apply(cfg, s, DropKeyLock(1, false)) && Answered(s', 1, 0) && s'.reqs[1].key == Some("k")
    ensures |s'.table| == 2 && Live(s'.table[1], "k", s'.now)
  {
    s := OwnerPublishes(cfg);
    ReachableStep(cfg, s, KeyReleased(0));
    s := Apply(cfg, s, KeyReleased(0));
    s := Inserts(cfg, s, 0, cfg.ttl);
    s' := Apply(cfg, s, DropKeyLock(1, false));
  }

  lemma OwnerPublishes(cfg: Config) returns (s: State)
    requires cfg.leasesExpire
    ensures Reachable(cfg, s) && s.now == 0 && |s.table| == 1 && KeyLock("k") in s.locks && s.locks[KeyLock("k")] == 1
    ensures |s.reqs| == 3 && s.reqs[0] == Request(Some("k"), "1", Creating(cfg.ttl))
    ensures s.reqs[1] == Request(Some("k"), "2", LeavingKey(Created(0)))
  {
    s := BothAtInsert(cfg);
    s := Publishes(cfg, s, 1, cfg.ttl);
    s := LeavesPhone(cfg, s, 1, Created(0));
  }

  /** Without the index, a request that missed the unexpired row answers with one of its own. */
  lemma MissedAnswer(cfg: Config)
    requires cfg.ttl > 0 && !cfg.uniqueIndex && cfg.staleReads
    ensures !AlwaysCurrent(cfg)
  {
    ThreeRequestsReachable(cfg);
    var s := Completes(cfg, ThreeRequests(), 0);
    s := ReachesInsert(cfg, s, 1, true);
    s := Publishes(cfg, s, 1, cfg.ttl);
    s := LeavesPhone(cfg, s, 1, Created(1));
    assert Brings(s.reqs[1].pc, 1) && Live(s.table[0], "k", s.now);
    assert !AnswersCurrent(s);
  }

  /** A replica that still shows a row whose key was released early, after another request took the key. */
  lemma OutdatedAnswer(cfg: Config)
    requires cfg.ttl > 0 && cfg.staleReads && cfg.earlyRelease
    ensures !AlwaysCurrent(cfg)
  {
    ThreeRequestsReachable(cfg);
    var s := Completes(cfg, ThreeRequests(), 0);
    ReachableStep(cfg, s, KeyReleased(0));
    s := Apply(cfg, s, KeyReleased(0));
    ghost var version := |s.past| - 1;
    s := Completes(cfg, s, 1);
    assert s.past[version] == [Some(Hold("k", cfg.ttl))] && Live(s.table[1], "k", s.now);
    s := Finds(cfg, s, 2, version, 0);
    assert Brings(s.reqs[2].pc, 0) && Live(s.table[1], "k", s.now);
    assert !AnswersCurrent(s);
  }

  /**
   Every answer names the key's unexpired row if there is one, in every run, exactly where keys
   have no lifetime, or leases never run out and reads that may be stale are made up for by the
   unique index together with rows that keep their key until they expire.
   */
  lemma CurrentExactlyWhenUpToDate(cfg: Config)
    ensures AlwaysCurrent(cfg) <==> UpToDate(cfg)
  {
    if UpToDate(cfg) {
      forall s | Reachable(cfg, s)
        ensures AnswersCurrent(s)
      {
        ReachableInv(cfg, s);
        if cfg.ttl > 0 {
          var s0, acts :| RunsTo(cfg, s0, acts, s);
          RunNamesCurrent(cfg, s0, acts);
          NamesCurrentSuffices(s);
        }
      }
    } else if cfg.leasesExpire {
      LateAnswer(cfg);
    } else if cfg.uniqueIndex {
      OutdatedAnswer(cfg);
    } else {
      MissedAnswer(cfg);
    }
  }

  // ----- reuse paths publish nothing

  function PublishesBy(acts: seq<Action>, p: nat): nat
    decreases |acts|
  {
    if |acts| == 0 then 0
    else (if acts[0].Enqueue? && acts[0].p == p then 1 else 0) + PublishesBy(acts[1..], p)
  }

  predicate Reuses(pc: Pc) {
    (pc.LeavingPhone? || pc.LeavingKey? || pc.Done?) && pc.result.Reused?
  }

  /** On the way out with a result of its own, or a failure that is not recovered from. */
  predicate Settling(pc: Pc) {
    && (pc.LeavingPhone? || pc.LeavingKey? || pc.Done?) && !pc.result.Reused?
    && (pc.LeavingPhone? ==> !pc.violation)
  }

  lemma StaysSettling(cfg: Config, s: State, a: Action, p: nat)
    requires Enabled(cfg, s, a) && p < |s.reqs| && (Settling(s.reqs[p].pc) || (a.Enqueue? && a.p == p))
    ensures p < |Apply(cfg, s, a).reqs| && Settling(Apply(cfg, s, a).reqs[p].pc)
  {
  }

  lemma {:induction false} SettlingPublishesNothing(cfg: Config, s: State, acts: seq<Action>, p: nat)
    requires IsRun(cfg, s, acts) && p < |s.reqs| && Settling(s.reqs[p].pc)
    ensures PublishesBy(acts, p) == 0
    ensures p < |After(cfg, s, acts).reqs| && Settling(After(cfg, s, acts).reqs[p].pc)
    decreases |acts|
  {
    if |acts| > 0 {
      StaysSettling(cfg, s, acts[0], p);
      SettlingPublishesNothing(cfg, Apply(cfg, s, acts[0]), acts[1..], p);
    }
  }

  /** Over any run a request publishes at most once, and one that answers with a reused row not at all. */
  lemma {:induction false} ReusePublishesNothing(cfg: Config, s: State, acts: seq<Action>, p: nat)
    requires IsRun(cfg, s, acts) && p < |s.reqs|
    ensures PublishesBy(acts, p) <= 1
    ensures p < |After(cfg, s, acts).reqs|
    ensures Reuses(After(cfg, s, acts).reqs[p].pc) ==> PublishesBy(acts, p) == 0
    decreases |acts|
  {
    if |acts| > 0 {
      var s' := Apply(cfg, s, acts[0]);
      if acts[0].Enqueue? && acts[0].p == p {
        StaysSettling(cfg, s, acts[0], p);
        SettlingPublishesNothing(cfg, s', acts[1..], p);
      } else {
        ReusePublishesNothing(cfg, s', acts[1..], p);
      }
    }
  }

  // ----- rows that never get a job

  /** Once a row is no longer about to be published, no step of any request changes whether it was. */
  lemma FateStep(cfg: Config, s: State, a: Action, r: nat)
    requires Inv(cfg, s) && Enabled(cfg, s, a) && r < |s.table| && !InFlight(s, r)
    ensures var s' := Apply(cfg, s, a); !InFlight(s', r) && r < |s'.table| && (r in s'.dropped <==> r in s.dropped)
  {
    var s' := Apply(cfg, s, a);
    assert |s'.reqs| == |s.reqs|;
    forall q | 0 <= q < |s'.reqs|
      ensures s'.reqs[q].pc != Queueing(r)
    {
      QueueingBefore(cfg, s, a, q);
    }
    if a.Enqueue? {
      assert s.reqs[a.p].pc != Queueing(r);
    }
  }

  /** A row whose publish failed has no job in any continuation, and every other decided row has one. */
  lemma {:induction false} NoJobExactlyWhenDropped(cfg: Config, s: State, acts: seq<Action>, r: nat)
    requires Inv(cfg, s) && IsRun(cfg, s, acts) && r < |s.table| && !InFlight(s, r)
    ensures r !in After(cfg, s, acts).jobs <==> r in s.dropped
    decreases |acts|
  {
    if |acts| > 0 {
      StepInv(cfg, s, acts[0]);
      FateStep(cfg, s, acts[0], r);
      NoJobExactlyWhenDropped(cfg, Apply(cfg, s, acts[0]), acts[1..], r);
    }
  }

  lemma FailsToPublish(cfg: Config) returns (s: State)
    ensures Reachable(cfg, s) && s.now == 0 && s.locks == map[] && s.table == [Some(Hold("k", cfg.ttl))] && s.jobs == []
    ensures |s.reqs| == 3 && s.reqs[0].pc == Done(Failed) && s.reqs[1] == ThreeRequests().reqs[1]
  {
    ThreeRequestsReachable(cfg);
    s := ReachesInsert(cfg, ThreeRequests(), 0, false);
    s := Inserts(cfg, s, 0, cfg.ttl);
    s := Drops(cfg, s, 0);
    s := Answers(cfg, s, 0, Failed);
  }

  lemma Drops(cfg: Config, s: State, p: nat) returns (s': State)
    requires Reachable(cfg, s) && p < |s.reqs| && s.reqs[p].pc.Queueing?
    ensures Reachable(cfg, s')
    ensures s' == Goto(s.(dropped := s.dropped + [s.reqs[p].pc.row]), p, LeavingPhone(Failed, false))
  {
    ReachableStep(cfg, s, Enqueue(p, false));
    s' := Apply(cfg, s, Enqueue(p, false));
  }

  /** A failed publish leaves an active row without a job, and the next request is answered with that row. */
  lemma DroppedPublish(cfg: Config) returns (s: State)
    requires cfg.ttl > 0
    ensures Reachable(cfg, s) && |s.table| == 1 && Live(s.table[0], "k", s.now) && s.jobs == []
    ensures |s.reqs| == 3 && s.reqs[0].pc == Done(Failed) && s.reqs[1].pc == Done(Reused(0))
    ensures s.reqs[1].key == Some("k")
  {
    s := FailsToPublish(cfg);
    s := Finds(cfg, s, 1, |s.past|, 0);
    ReachableStep(cfg, s, DropKeyLock(1, false));
    s := Apply(cfg, s, DropKeyLock(1, false));
  }
}
