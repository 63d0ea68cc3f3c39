/**
 What a request achieves: where nothing throws and reads are fresh, every request that is left to
 run alone ends in the answer its key calls for, from wherever it stands.
 */
module IdempotencyProgress {
  import opened Wrappers
  import opened Idempotency
  import opened IdempotencyProofs

  /** The next step of a request when no call throws and finds read the present table. */
  function NextAction(s: State, p: nat): Action
    requires p < |s.reqs| && !s.reqs[p].pc.Done?
  {
    match s.reqs[p].pc
    case Start => if s.reqs[p].key.Some? then TakeKeyLock(p) else BeginUnkeyed(p)
    case Releasing(_) => ReleaseOld(p)
    case Finding(_) => Find(p, |s.past|)
    case AwaitPhone => TakePhoneLock(p)
    case Creating(_) => Insert(p, NoFault)
    case Queueing(_) => Enqueue(p, true)
    case LeavingPhone(_, _) => DropPhoneLock(p, false)
    case LeavingKey(_) => DropKeyLock(p, false)
  }

  function StepsLeft(pc: Pc): nat {
    match pc
    case Start => 12
    case Releasing(stage) => (match stage case Outer => 11 case Inner => 8 case Recovery => 3)
    case Finding(stage) => (match stage case Outer => 10 case Inner => 7 case Recovery => 2)
    case AwaitPhone => 9
    case Creating(_) => 6
    case Queueing(_) => 5
    case LeavingPhone(_, _) => 4
    case LeavingKey(_) => 1
    case Done(_) => 0
  }

  lemma StepDown(cfg: Config, s: State, p: nat)
    requires p < |s.reqs| && !s.reqs[p].pc.Done? && Enabled(cfg, s, NextAction(s, p))
    ensures var s' := Apply(cfg, s, NextAction(s, p));
            |s'.reqs| == |s.reqs| && StepsLeft(s'.reqs[p].pc) < StepsLeft(s.reqs[p].pc)
  {
    match s.reqs[p].pc
    case Finding(stage) =>
      var s' := Apply(cfg, s, Find(p, |s.past|));
      assert s'.reqs[p].pc == AfterFind(cfg, s, stage, FindActive(s.table, s.reqs[p].key.value, s.now));
    case Creating(_) => assert Apply(cfg, s, Insert(p, NoFault)) == DoInsert(cfg, s, p, NoFault);
    case LeavingPhone(_, _) => assert Apply(cfg, s, DropPhoneLock(p, false)) == DoDropPhoneLock(s, p, false);
    case _ =>
  }

  /** The request's own steps, one after the other, for as long as one is enabled. */
  ghost function Solo(cfg: Config, s: State, p: nat): State
    requires p < |s.reqs|
    decreases StepsLeft(s.reqs[p].pc)
  {
    if s.reqs[p].pc.Done? || !Enabled(cfg, s, NextAction(s, p)) then s
    else
      StepDown(cfg, s, p);
      Solo(cfg, Apply(cfg, s, NextAction(s, p)), p)
  }

  /** It is a run of the protocol. */
  lemma {:induction false} SoloReachable(cfg: Config, s: State, p: nat)
    requires Reachable(cfg, s) && p < |s.reqs|
    ensures Reachable(cfg, Solo(cfg, s, p))
    decreases StepsLeft(s.reqs[p].pc)
  {
    if !s.reqs[p].pc.Done? && Enabled(cfg, s, NextAction(s, p)) {
      StepDown(cfg, s, p);
      ReachableStep(cfg, s, NextAction(s, p));
      SoloReachable(cfg, Apply(cfg, s, NextAction(s, p)), p);
    }
  }

  lemma {:induction false} SoloStep(cfg: Config, s: State, p: nat)
    requires p < |s.reqs| && !s.reqs[p].pc.Done? && Enabled(cfg, s, NextAction(s, p))
    ensures |Apply(cfg, s, NextAction(s, p)).reqs| == |s.reqs|
    ensures Solo(cfg, s, p) == Solo(cfg, Apply(cfg, s, NextAction(s, p)), p)
  {
    StepDown(cfg, s, p);
  }

  predicate At(s: State, p: nat, k: Key) { p < |s.reqs| && s.reqs[p].key == Some(k) }

  /** The key's newest unexpired row. */
  function Current(s: State, k: Key): Option<nat> { FindActive(s.table, k, s.now) }

  /** Two tables with the same unexpired rows of a key have the same newest one. */
  lemma {:induction false} SameLiveSameRow(t: Table, t': Table, k: Key, now: int)
    requires |t| == |t'| && forall i :: 0 <= i < |t| ==> Live(t[i], k, now) == Live(t'[i], k, now)
    ensures FindActive(t, k, now) == FindActive(t', k, now)
  {
    var a, b := FindActive(t, k, now), FindActive(t', k, now);
    if a.Some? {
      assert Live(t'[a.value], k, now);
      assert b.Some? && a.value <= b.value;
    }
    if b.Some? {
      assert Live(t[b.value], k, now);
      assert a.Some? && b.value <= a.value;
    }
  }

  // ----- the way out

  lemma {:induction false} SoloLeavingKey(cfg: Config, s: State, p: nat, k: Key)
    requires At(s, p, k) && s.reqs[p].pc.LeavingKey?
    ensures Solo(cfg, s, p) == Goto(s.(locks := Unlock(s.locks, KeyLock(k), p)), p, Done(s.reqs[p].pc.result))
  {
    SoloStep(cfg, s, p);
  }

  /** A lookup on the present table: expired rows of the key let go, and the newest unexpired one is found. */
  lemma {:induction false} SoloLookup(cfg: Config, s: State, p: nat, k: Key)
    requires At(s, p, k) && s.reqs[p].pc.Releasing?
    ensures var pc := AfterFind(cfg, s, s.reqs[p].pc.stage, Current(s, k));
            var s' := Goto(Commit(s, ReleaseExpired(s.table, k, s.now)), p, pc);
            |s'.reqs| == |s.reqs| && Solo(cfg, s, p) == Solo(cfg, s', p)
  {
    SoloStep(cfg, s, p);
    var s1 := Apply(cfg, s, ReleaseOld(p));
    SoloStep(cfg, s1, p);
    SameLiveSameRow(s.table, s1.table, k, s.now);
    assert Apply(cfg, s1, Find(p, |s1.past|)) ==
           Goto(Commit(s, s1.table), p, AfterFind(cfg, s, s.reqs[p].pc.stage, Current(s, k)));
  }

  /** What a request that meets a conflict is left with: the current row, or the error. */
  function Fallback(s: State, k: Key): Outcome {
    if Current(s, k).Some? then Reused(Current(s, k).value) else Failed
  }

  lemma {:induction false} SoloLeavingPhone(cfg: Config, s: State, p: nat, k: Key)
    requires At(s, p, k) && s.reqs[p].pc.LeavingPhone? && !(s.reqs[p].pc.result.Failed? && s.reqs[p].pc.violation)
    ensures var freed := Unlock(Unlock(s.locks, PhoneLock(s.reqs[p].phone), p), KeyLock(k), p);
            Solo(cfg, s, p) == Goto(s.(locks := freed), p, Done(s.reqs[p].pc.result))
  {
    SoloStep(cfg, s, p);
    SoloLeavingKey(cfg, Apply(cfg, s, DropPhoneLock(p, false)), p, k);
  }

  /**
   Recovery from a unique violation: the request answers with the key's newest unexpired row, and
   fails exactly when there is none. Nothing is inserted or published, and both leases are dropped.
   */
  lemma {:induction false} RecoveryAnswers(cfg: Config, s: State, p: nat, k: Key)
    requires At(s, p, k) && s.reqs[p].pc == LeavingPhone(Failed, true)
    ensures var s' := Solo(cfg, s, p);
            && |s'.reqs| == |s.reqs| && s'.reqs[p].pc == Done(Fallback(s, k))
            && s'.table == ReleaseExpired(s.table, k, s.now) && s'.jobs == s.jobs && s'.now == s.now
            && s'.locks == Unlock(Unlock(s.locks, PhoneLock(s.reqs[p].phone), p), KeyLock(k), p)
  {
    SoloStep(cfg, s, p);
    var s1 := Apply(cfg, s, DropPhoneLock(p, false));
    SoloLookup(cfg, s1, p, k);
    var s2 := Goto(Commit(s1, ReleaseExpired(s1.table, k, s1.now)), p, AfterFind(cfg, s1, Recovery, Current(s1, k)));
    SoloLeavingKey(cfg, s2, p, k);
  }

  /** The state after a request has inserted its row, published it and left. */
  ghost predicate Creates(s: State, s': State, p: nat, t: Table, hold: Option<Hold>) {
    && |s'.reqs| == |s.reqs| && p < |s.reqs| && s'.reqs[p].pc == Done(Created(|s.table|)) && s'.now == s.now
    && s'.table == t + [hold] && s'.born == s.born + [hold] && s'.jobs == s.jobs + [|s.table|]
  }

  /**
   An insert: the request creates and publishes a row with its key and expiry, unless the unique
   index refuses it because the key is taken; then it is left with the key's unexpired row.
   */
  lemma {:induction false} InsertAnswers(cfg: Config, s: State, p: nat, k: Key)
    requires At(s, p, k) && s.reqs[p].pc.Creating?
    ensures var s' := Solo(cfg, s, p);
            && s'.locks == Unlock(Unlock(s.locks, PhoneLock(s.reqs[p].phone), p), KeyLock(k), p)
            && if cfg.uniqueIndex && KeyTaken(s.table, k) then
                 && |s'.reqs| == |s.reqs| && s'.reqs[p].pc == Done(Fallback(s, k)) && s'.now == s.now
                 && s'.jobs == s.jobs && s'.table == ReleaseExpired(s.table, k, s.now)
               else Creates(s, s', p, s.table, Some(Hold(k, s.reqs[p].pc.expiresAt)))
  {
    SoloStep(cfg, s, p);
    var s1 := Apply(cfg, s, Insert(p, NoFault));
    if cfg.uniqueIndex && KeyTaken(s.table, k) {
      RecoveryAnswers(cfg, s1, p, k);
    } else {
      SoloStep(cfg, s1, p);
      SoloLeavingPhone(cfg, Apply(cfg, s1, Enqueue(p, true)), p, k);
    }
  }

  /** After the release of expired rows only an unexpired row can hold the key. */
  lemma ReleasedMeansFree(s: State, k: Key)
    requires Current(s, k).None?
    ensures !KeyTaken(ReleaseExpired(s.table, k, s.now), k)
  {
    var t := ReleaseExpired(s.table, k, s.now);
    forall i | 0 <= i < |t|
      ensures !Holds(t[i], k)
    {
      assert !Live(s.table[i], k, s.now);
    }
  }

  /** Where a lookup finds a current row the request answers with it, otherwise it creates one. */
  ghost predicate ReusesOrCreates(cfg: Config, s: State, s': State, p: nat, k: Key) {
    var t := ReleaseExpired(s.table, k, s.now);
    match Current(s, k)
    case Some(r) =>
      |s'.reqs| == |s.reqs| && p < |s.reqs| && s'.reqs[p].pc == Done(Reused(r)) && s'.table == t && s'.jobs == s.jobs
    case None => Creates(s, s', p, t, Some(Hold(k, s.now + cfg.ttl)))
  }

  /** The check inside the phone's lease. */
  lemma {:induction false} InnerCheckAnswers(cfg: Config, s: State, p: nat, k: Key)
    requires At(s, p, k) && s.reqs[p].pc == Releasing(Inner)
    ensures var s' := Solo(cfg, s, p);
            && ReusesOrCreates(cfg, s, s', p, k)
            && s'.locks == Unlock(Unlock(s.locks, PhoneLock(s.reqs[p].phone), p), KeyLock(k), p)
  {
    var t := ReleaseExpired(s.table, k, s.now);
    SoloLookup(cfg, s, p, k);
    if Current(s, k).Some? {
      SoloLeavingPhone(cfg, Goto(Commit(s, t), p, LeavingPhone(Reused(Current(s, k).value), false)), p, k);
    } else {
      ReleasedMeansFree(s, k);
      InsertAnswers(cfg, Goto(Commit(s, t), p, Creating(s.now + cfg.ttl)), p, k);
    }
  }

  lemma ReleasedTwice(t: Table, k: Key, now: int)
    ensures ReleaseExpired(ReleaseExpired(t, k, now), k, now) == ReleaseExpired(t, k, now)
  {
  }

  /** From the phone's lease on, once the outer check has found nothing. */
  lemma {:induction false} SecondHalf(cfg: Config, s: State, p: nat, k: Key)
    requires At(s, p, k) && s.reqs[p].pc == AwaitPhone && PhoneLock(s.reqs[p].phone) !in s.locks
    ensures var s' := Solo(cfg, s, p);
            ReusesOrCreates(cfg, s, s', p, k) && s'.locks == Unlock(s.locks, KeyLock(k), p)
  {
    SoloStep(cfg, s, p);
    var s1 := Apply(cfg, s, TakePhoneLock(p));
    InnerCheckAnswers(cfg, s1, p, k);
    assert Unlock(s1.locks, PhoneLock(s.reqs[p].phone), p) == s.locks;
  }

  lemma StillToCreate(cfg: Config, s: State, s1: State, s': State, p: nat, k: Key)
    requires Current(s, k).None? && p < |s.reqs|
    requires s1 == Goto(Commit(s, ReleaseExpired(s.table, k, s.now)), p, AwaitPhone)
    requires ReusesOrCreates(cfg, s1, s', p, k)
    ensures ReusesOrCreates(cfg, s, s', p, k)
  {
    SameLiveSameRow(s.table, s1.table, k, s.now);
    ReleasedTwice(s.table, k, s.now);
  }

  lemma {:induction false} OuterCheckAnswers(cfg: Config, s: State, p: nat, k: Key)
    requires At(s, p, k) && s.reqs[p].pc == Releasing(Outer) && PhoneLock(s.reqs[p].phone) !in s.locks
    ensures var s' := Solo(cfg, s, p);
            ReusesOrCreates(cfg, s, s', p, k) && s'.locks == Unlock(s.locks, KeyLock(k), p)
  {
    SoloLookup(cfg, s, p, k);
    var t := ReleaseExpired(s.table, k, s.now);
    if Current(s, k).Some? {
      SoloLeavingKey(cfg, Goto(Commit(s, t), p, LeavingKey(Reused(Current(s, k).value))), p, k);
    } else {
      var s1 := Goto(Commit(s, t), p, AwaitPhone);
      SecondHalf(cfg, s1, p, k);
      StillToCreate(cfg, s, s1, Solo(cfg, s1, p), p, k);
    }
  }

  /**
   Main theorem. In any state, a request whose two leases are free answers with its key's newest
   unexpired row, and where there is none it creates one that holds the key for its lifetime and
   publishes one job for it. It leaves the leases as it found them.
   */
  lemma {:induction false} KeyedRequestAnswers(cfg: Config, s: State, p: nat, k: Key)
    requires At(s, p, k) && s.reqs[p].pc == Start && KeyLock(k) !in s.locks && PhoneLock(s.reqs[p].phone) !in s.locks
    ensures var s' := Solo(cfg, s, p); ReusesOrCreates(cfg, s, s', p, k) && s'.locks == s.locks
  {
    SoloStep(cfg, s, p);
    var s1 := Apply(cfg, s, TakeKeyLock(p));
    OuterCheckAnswers(cfg, s1, p, k);
    assert Unlock(s1.locks, KeyLock(k), p) == s.locks;
  }

  /** A request without a key always creates a row and publishes one job for it. */
  lemma {:induction false} UnkeyedRequestAnswers(cfg: Config, s: State, p: nat)
    requires p < |s.reqs| && s.reqs[p].key.None? && s.reqs[p].pc == Start && PhoneLock(s.reqs[p].phone) !in s.locks
    ensures var s' := Solo(cfg, s, p); Creates(s, s', p, s.table, None) && s'.locks == s.locks
  {
    SoloStep(cfg, s, p);
    var s1 := Apply(cfg, s, BeginUnkeyed(p));
    SoloStep(cfg, s1, p);
    var s2 := Apply(cfg, s1, TakePhoneLock(p));
    SoloStep(cfg, s2, p);
    var s3 := Apply(cfg, s2, Insert(p, NoFault));
    SoloStep(cfg, s3, p);
    var s4 := Apply(cfg, s3, Enqueue(p, true));
    SoloStep(cfg, s4, p);
    assert Unlock(s4.locks, PhoneLock(s.reqs[p].phone), p) == s.locks;
  }

  /** A request takes only free leases and gives back only its own, also one it has lost to another. */
  lemma OthersLeasesKept(cfg: Config, s: State, a: Action, l: Lock)
    requires Enabled(cfg, s, a) && Actor(a).Some? && l in s.locks && s.locks[l] != a.p
    ensures l in Apply(cfg, s, a).locks && Apply(cfg, s, a).locks[l] == s.locks[l]
  {
  }

  // ----- calls that throw

  /** A call that throws, other than with a unique violation. */
  predicate Throws(a: Action) {
    match a
    case RefuseKeyLock(_) => true
    case LookupFails(_) => true
    case RefusePhoneLock(_) => true
    case Insert(_, fault) => fault.OtherError?
    case Enqueue(_, ok) => !ok
    case DropPhoneLock(_, throws) => throws
    case DropKeyLock(_, throws) => throws
    case _ => false
  }

  /** A request one of whose calls throws fails, and neither inserts nor publishes anything after that. */
  lemma {:induction false} ThrowingFails(cfg: Config, s: State, a: Action)
    requires Enabled(cfg, s, a) && Throws(a)
    requires s.reqs[a.p].key.None? ==> !s.reqs[a.p].pc.Releasing? && !s.reqs[a.p].pc.Finding?
    ensures var s1 := Apply(cfg, s, a);
            && |s1.reqs| == |s.reqs|
            && var s' := Solo(cfg, s1, a.p);
               |s'.reqs| == |s.reqs| && s'.reqs[a.p].pc == Done(Failed) && s'.table == s.table && s'.jobs == s.jobs
  {
    var s1 := Apply(cfg, s, a);
    if s.reqs[a.p].key.Some? {
      var k := s.reqs[a.p].key.value;
      if s1.reqs[a.p].pc.LeavingPhone? {
        SoloLeavingPhone(cfg, s1, a.p, k);
      } else if s1.reqs[a.p].pc.LeavingKey? {
        SoloLeavingKey(cfg, s1, a.p, k);
      }
    } else if s1.reqs[a.p].pc.LeavingPhone? {
      SoloStep(cfg, s1, a.p);
    }
  }

  /**
   A unique violation of a keyed request leads to recovery, whichever index raised it; one of an
   unkeyed request fails.
   */
  lemma {:induction false} ViolationAnswers(cfg: Config, s: State, p: nat)
    requires p < |s.reqs| && s.reqs[p].pc.Creating?
    ensures var s1 := Apply(cfg, s, Insert(p, OtherViolation));
            && |s1.reqs| == |s.reqs|
            && var s' := Solo(cfg, s1, p);
               && |s'.reqs| == |s.reqs| && s'.jobs == s.jobs && |s'.table| == |s.table|
               && s'.reqs[p].pc == Done(if s.reqs[p].key.Some? then Fallback(s, s.reqs[p].key.value) else Failed)
  {
    var s1 := Apply(cfg, s, Insert(p, OtherViolation));
    if s.reqs[p].key.Some? {
      RecoveryAnswers(cfg, s1, p, s.reqs[p].key.value);
    } else {
      SoloStep(cfg, s1, p);
    }
  }

  lemma StaleAtInsert(cfg: Config) returns (s: State)
    requires cfg.ttl > 0 && cfg.staleReads
    ensures Reachable(cfg, s) && s.now == 0 && s.jobs == [0] && s.table == [Some(Hold("k", cfg.ttl))]
    ensures |s.reqs| == 3 && s.reqs[0] == Request(Some("k"), "1", Done(Created(0)))
    ensures s.reqs[1] == Request(Some("k"), "2", Creating(cfg.ttl))
  {
    ThreeRequestsReachable(cfg);
    s := Completes(cfg, ThreeRequests(), 0);
    s := ReachesInsert(cfg, s, 1, true);
  }

  /** With the unique index, a request that twice read an old version still answers with the unexpired row. */
  lemma StaleInsertRecovers(cfg: Config) returns (s: State)
    requires cfg.ttl > 0 && cfg.uniqueIndex && cfg.staleReads
    ensures Reachable(cfg, s) && s.jobs == [0] && |s.table| == 1 && Live(s.table[0], "k", s.now)
    ensures Answered(s, 0, 0) && s.reqs[0].key == Some("k") && |s.reqs| == 3 && s.reqs[1].pc == Done(Reused(0))
  {
    s := StaleAtInsert(cfg);
    assert Holds(s.table[0], "k") && KeyTaken(s.table, "k") && Current(s, "k") == Some(0);
    SoloReachable(cfg, s, 1);
    InsertAnswers(cfg, s, 1, "k");
    OthersStay(cfg, s, 1, 0);
    s := Solo(cfg, s, 1);
  }

  /** A solo run leaves the other requests where they are. */
  lemma {:induction false} OthersStay(cfg: Config, s: State, p: nat, q: nat)
    requires p < |s.reqs| && q < |s.reqs| && p != q
    ensures |Solo(cfg, s, p).reqs| == |s.reqs| && Solo(cfg, s, p).reqs[q] == s.reqs[q]
    decreases StepsLeft(s.reqs[p].pc)
  {
    if !s.reqs[p].pc.Done? && Enabled(cfg, s, NextAction(s, p)) {
      StepDown(cfg, s, p);
      OthersStay(cfg, Apply(cfg, s, NextAction(s, p)), p, q);
    }
  }
}
