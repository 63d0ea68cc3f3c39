/**
 Account lockout: a failure counter key and a lock key per identifier, both with deadlines.
 Attempts are sequential and each happens at one instant, in milliseconds.
 */
module Lockout {
  import opened Wrappers
  import opened RedisKeys

  datatype Config = Config(maxAttempts: int, windowSeconds: int, lockSeconds: int)

  datatype Status = Status(isLocked: bool, attemptsRemaining: int, lockedAt: Option<int>, unlocksAt: Option<int>,
    minutesRemaining: Option<int>)

  datatype Keys = Keys(attempts: Db<nat>, locks: Db<string>)

  function Unlocked(remaining: int): Status { Status(false, remaining, None, None, None) }

  /** The whole minutes that cover a number of seconds. */
  function Ceil60(seconds: int): (m: int)
    ensures 60 * (m - 1) < seconds <= 60 * m
  {
    (seconds + 59) / 60
  }

  function StatusOf(cfg: Config, k: Keys, id: string, now: int): Status {
    var ttl := Ttl(k.locks, id, now);
    if ttl > 0 then
      Status(true, 0, Some(now - (cfg.lockSeconds - ttl) * 1000), Some(now + ttl * 1000), Some(Ceil60(ttl)))
    else
      var raw := Get(k.attempts, id, now);
      var attempts := if raw.Some? then raw.value else 0;
      Unlocked(if cfg.maxAttempts - attempts > 0 then cfg.maxAttempts - attempts else 0)
  }

  /** The keys after a failed attempt, its reported status, and whether it says it just locked the account. */
  function Failed(cfg: Config, k: Keys, id: string, now: int): (Keys, Status, bool) {
    var status := StatusOf(cfg, k, id, now);
    if status.isLocked then (k, status, false)
    else
      var attempts := Incremented(k.attempts, id, now);
      var counted := IncrInWindow(k.attempts, id, now, cfg.windowSeconds);
      if attempts >= cfg.maxAttempts then
        (Keys(Del(counted, id), SetNx(k.locks, id, "1", now, cfg.lockSeconds)),
         Status(true, 0, Some(now), Some(now + cfg.lockSeconds * 1000), Some(Ceil60(cfg.lockSeconds))),
         true)
      else (k.(attempts := counted), Unlocked(cfg.maxAttempts - attempts), false)
  }

  /** A successful login or an admin unlock: both keys go. */
  function Cleared(k: Keys, id: string): Keys { Keys(Del(k.attempts, id), Del(k.locks, id)) }

  /** Whether DEL finds a live key of either kind, which is what an admin unlock answers. */
  predicate AnyAlive(k: Keys, id: string, now: int) { Alive(k.locks, id, now) || Alive(k.attempts, id, now) }

  class LockoutStore {
    const cfg: Config
    var attempts: Db<nat>
    var locks: Db<string>

    function View(): Keys
      reads this
    {
      Keys(attempts, locks)
    }

    constructor (cfg: Config)
      ensures this.cfg == cfg && View() == Keys(map[], map[])
    {
      this.cfg, attempts, locks := cfg, map[], map[];
    }

    method GetLockoutStatus(id: string, now: int) returns (s: Status)
      ensures s == StatusOf(cfg, View(), id, now)
    {
      var ttl := Ttl(locks, id, now);
      if ttl > 0 {
        return Status(true, 0, Some(now - (cfg.lockSeconds - ttl) * 1000), Some(now + ttl * 1000), Some(Ceil60(ttl)));
      }
      var raw := Get(attempts, id, now);
      var n := if raw.Some? then raw.value else 0;
      s := Unlocked(if cfg.maxAttempts - n > 0 then cfg.maxAttempts - n else 0);
    }

    method RecordFailedAttempt(id: string, now: int) returns (status: Status, justLocked: bool)
      modifies this
      ensures (View(), status, justLocked) == Failed(cfg, old(View()), id, now)
    {
      status := GetLockoutStatus(id, now);
      if status.isLocked {
        return status, false;
      }
      var n := Incremented(attempts, id, now);
      attempts := IncrInWindow(attempts, id, now, cfg.windowSeconds);
      if n >= cfg.maxAttempts {
        locks := SetNx(locks, id, "1", now, cfg.lockSeconds);
        attempts := Del(attempts, id);
        status := Status(true, 0, Some(now), Some(now + cfg.lockSeconds * 1000), Some(Ceil60(cfg.lockSeconds)));
        return status, true;
      }
      return Unlocked(cfg.maxAttempts - n), false;
    }

    method RecordSuccessfulLogin(id: string)
      modifies this
      ensures View() == Cleared(old(View()), id)
    {
      locks := Del(locks, id);
      attempts := Del(attempts, id);
    }

    /** Reports whether a live key of either kind was deleted. */
    method AdminUnlock(id: string, now: int) returns (removed: bool)
      modifies this
      ensures View() == Cleared(old(View()), id)
      ensures removed <==> AnyAlive(old(View()), id, now)
    {
      removed := Alive(locks, id, now) || Alive(attempts, id, now);
      locks := Del(locks, id);
      attempts := Del(attempts, id);
    }
  }

  // ----- the reference: one phase per account, folded over its history

  datatype Event = Failure(at: int) | Reset(at: int)

  datatype Phase = Clear | Counting(failures: nat, openedAt: int) | Locked(since: int)

  /** A phase ends by itself when its window or its lock is over. */
  function Settle(cfg: Config, p: Phase, now: int): Phase {
    match p
    case Clear => Clear
    case Counting(_, o) => if now < o + cfg.windowSeconds * 1000 then p else Clear
    case Locked(since) => if now < since + cfg.lockSeconds * 1000 then p else Clear
  }

  function Next(cfg: Config, p: Phase, e: Event): Phase {
    if e.Reset? then Clear
    else
      match Settle(cfg, p, e.at)
      case Locked(since) => Locked(since)
      case Clear => if 1 >= cfg.maxAttempts then Locked(e.at) else Counting(1, e.at)
      case Counting(n, o) => if n + 1 >= cfg.maxAttempts then Locked(e.at) else Counting(n + 1, o)
  }

  function PhaseAfter(cfg: Config, h: seq<Event>): Phase
    decreases |h|
  {
    if |h| == 0 then Clear else Next(cfg, PhaseAfter(cfg, h[..|h| - 1]), h[|h| - 1])
  }

  function KeysAfter(cfg: Config, id: string, h: seq<Event>): Keys
    decreases |h|
  {
    if |h| == 0 then Keys(map[], map[])
    else
      var k, e := KeysAfter(cfg, id, h[..|h| - 1]), h[|h| - 1];
      if e.Failure? then Failed(cfg, k, id, e.at).0 else Cleared(k, id)
  }

  ghost predicate Ordered(h: seq<Event>) {
    forall i, j :: 0 <= i < j < |h| ==> h[i].at <= h[j].at
  }

  ghost predicate ValidConfig(cfg: Config) { cfg.lockSeconds > 0 }

  /** Less than half a second of a lock is left, which Redis rounds down to none. */
  predicate Closing(cfg: Config, p: Phase, now: int) {
    p.Locked? && 0 < p.since + cfg.lockSeconds * 1000 - now < 500
  }

  /** No failure falls into the last half second of a lock. On a whole-second clock none can. */
  ghost predicate NoneClosing(cfg: Config, h: seq<Event>) {
    forall i :: 0 <= i < |h| && h[i].Failure? ==> !Closing(cfg, PhaseAfter(cfg, h[..i]), h[i].at)
  }

  /** With a MAX of 1 a failure that finds an ending lock changes no key. */
  ghost predicate Undisturbed(cfg: Config, h: seq<Event>) { cfg.maxAttempts <= 1 || NoneClosing(cfg, h) }

  /** The two keys, read at `now`, are exactly the phase. */
  ghost predicate Represents(cfg: Config, k: Keys, id: string, p: Phase, now: int) {
    match Settle(cfg, p, now)
    case Clear => !Alive(k.locks, id, now) && !Alive(k.attempts, id, now)
    case Counting(n, o) =>
      && !Alive(k.locks, id, now) && Alive(k.attempts, id, now)
      && n > 0 && k.attempts[id] == Entry(n, o + cfg.windowSeconds * 1000)
    case Locked(since) =>
      && !Alive(k.attempts, id, now) && Alive(k.locks, id, now)
      && k.locks[id].deadline == since + cfg.lockSeconds * 1000
  }

  lemma RepresentsLater(cfg: Config, k: Keys, id: string, p: Phase, now: int, later: int)
    requires Represents(cfg, k, id, p, now) && now <= later
    ensures Represents(cfg, k, id, p, later)
  {
  }

  /**
   A failed attempt moves the keys as the reference moves the phase, and reports a lock exactly
   when it makes one, unless it falls into a lock's last half second; there the keys leave the
   reference exactly when the failure opens a counter beside the lock.
   */
  lemma FailureStep(cfg: Config, k: Keys, id: string, p: Phase, now: int)
    requires ValidConfig(cfg) && Represents(cfg, k, id, p, now)
    ensures var (k', status, justLocked) := Failed(cfg, k, id, now);
            var p', closing := Next(cfg, p, Failure(now)), Closing(cfg, p, now);
            && (Represents(cfg, k', id, p', now) <==> !closing || cfg.maxAttempts <= 1 || cfg.windowSeconds <= 0)
            && (justLocked <==> if closing then cfg.maxAttempts <= 1 else p'.Locked? && !Settle(cfg, p, now).Locked?)
            && (status.isLocked <==> p'.Locked? && (closing ==> cfg.maxAttempts <= 1))
  {
  }

  /** After every history the stored keys are the fold of that history, unless a failure disturbed it. */
  lemma {:induction false} KeysAreTheFold(cfg: Config, id: string, h: seq<Event>, now: int)
    requires ValidConfig(cfg) && Ordered(h) && Undisturbed(cfg, h) && (|h| > 0 ==> h[|h| - 1].at <= now)
    ensures Represents(cfg, KeysAfter(cfg, id, h), id, PhaseAfter(cfg, h), now)
    decreases |h|
  {
    if |h| > 0 {
      var pre, e := h[..|h| - 1], h[|h| - 1];
      UndisturbedPrefix(cfg, h, |h| - 1);
      KeysAreTheFold(cfg, id, pre, e.at);
      if e.Failure? {
        FailureStep(cfg, KeysAfter(cfg, id, pre), id, PhaseAfter(cfg, pre), e.at);
      }
      RepresentsLater(cfg, KeysAfter(cfg, id, h), id, PhaseAfter(cfg, h), e.at, now);
    }
  }

  lemma UndisturbedPrefix(cfg: Config, h: seq<Event>, n: nat)
    requires Undisturbed(cfg, h) && n <= |h|
    ensures Undisturbed(cfg, h[..n])
  {
    assert forall i :: 0 <= i < n ==> h[..n][..i] == h[..i];
  }

  // ----- what the fold says of a history

  /** The last `n` events are failures within one window of the first of them, which opened it. */
  ghost predicate Streak(cfg: Config, h: seq<Event>, n: nat, now: int) {
    && 1 <= n <= |h|
    && (forall i :: |h| - n <= i < |h| ==> h[i].Failure? && h[i].at < h[|h| - n].at + cfg.windowSeconds * 1000)
    && now < h[|h| - n].at + cfg.windowSeconds * 1000
    && Settle(cfg, PhaseAfter(cfg, h[..|h| - n]), h[|h| - n].at) == Clear
  }

  lemma {:induction false} CountingIsStreak(cfg: Config, h: seq<Event>, now: int)
    requires Ordered(h) && (|h| > 0 ==> h[|h| - 1].at <= now) && Settle(cfg, PhaseAfter(cfg, h), now).Counting?
    ensures var p := PhaseAfter(cfg, h);
            Streak(cfg, h, p.failures, now) && p.openedAt == h[|h| - p.failures].at && p.failures < cfg.maxAttempts
    decreases |h|
  {
    var pre, e, p := h[..|h| - 1], h[|h| - 1], PhaseAfter(cfg, h);
    var q := Settle(cfg, PhaseAfter(cfg, pre), e.at);
    if q.Counting? {
      CountingIsStreak(cfg, pre, e.at);
      assert pre[..|pre| - q.failures] == h[..|h| - p.failures];
    }
  }

  lemma {:induction false} StreakIsCounting(cfg: Config, h: seq<Event>, n: nat, now: int)
    requires Ordered(h) && Streak(cfg, h, n, now) && n < cfg.maxAttempts
    ensures Settle(cfg, PhaseAfter(cfg, h), now) == Counting(n, h[|h| - n].at)
    decreases n
  {
    var pre, e := h[..|h| - 1], h[|h| - 1];
    if n > 1 {
      assert pre[..|pre| - (n - 1)] == h[..|h| - n];
      StreakIsCounting(cfg, pre, n - 1, e.at);
    }
  }

  /**
   A failure locks the account exactly when it is the MAX-th failure of a window opened by the
   first of them, with no reset in between (with MAX at most 1: whenever nothing is pending).
   */
  lemma {:induction false} LocksExactlyOnMaxth(cfg: Config, h: seq<Event>, now: int)
    requires Ordered(h) && (|h| > 0 ==> h[|h| - 1].at <= now)
    ensures var p := PhaseAfter(cfg, h);
            Next(cfg, p, Failure(now)) == Locked(now) && !Settle(cfg, p, now).Locked? <==>
            if cfg.maxAttempts <= 1 then !Settle(cfg, PhaseAfter(cfg, h), now).Locked?
            else Streak(cfg, h, cfg.maxAttempts - 1, now)
  {
    var p := Settle(cfg, PhaseAfter(cfg, h), now);
    if p.Counting? {
      CountingIsStreak(cfg, h, now);
    }
    if cfg.maxAttempts > 1 && Streak(cfg, h, cfg.maxAttempts - 1, now) {
      StreakIsCounting(cfg, h, cfg.maxAttempts - 1, now);
    }
  }

  /** The implementation reports `justLocked` on exactly those failures where the keys follow the fold. */
  lemma {:induction false} JustLockedOnMaxth(cfg: Config, id: string, h: seq<Event>, now: int)
    requires ValidConfig(cfg) && Ordered(h + [Failure(now)]) && NoneClosing(cfg, h + [Failure(now)])
    ensures Failed(cfg, KeysAfter(cfg, id, h), id, now).2 <==>
            if cfg.maxAttempts <= 1 then !Settle(cfg, PhaseAfter(cfg, h), now).Locked?
            else Streak(cfg, h, cfg.maxAttempts - 1, now)
  {
    var h' := h + [Failure(now)];
    assert forall i :: 0 <= i < |h| ==> h'[i] == h[i] && h'[..i] == h[..i];
    assert h'[..|h|] == h && h'[|h|] == Failure(now);
    KeysAreTheFold(cfg, id, h, now);
    FailureStep(cfg, KeysAfter(cfg, id, h), id, PhaseAfter(cfg, h), now);
    LocksExactlyOnMaxth(cfg, h, now);
  }

  // ----- every history, failures in a lock's last half second included

  /** Whether the account reads as locked after a history. */
  predicate ReadsLocked(cfg: Config, id: string, h: seq<Event>, now: int) {
    StatusOf(cfg, KeysAfter(cfg, id, h), id, now).isLocked
  }

  /**
   The last `n` events are failures that did not find the account locked; the first of them found
   no counter, and the others and `now` lie within one window of it.
   */
  ghost predicate CountedStreak(cfg: Config, id: string, h: seq<Event>, n: nat, now: int)
    decreases n
  {
    && 1 <= n <= |h| && now < h[|h| - n].at + cfg.windowSeconds * 1000
    && var pre, last := h[..|h| - 1], h[|h| - 1];
       && last.Failure? && !ReadsLocked(cfg, id, pre, last.at)
       && if n == 1 then !Alive(KeysAfter(cfg, id, pre).attempts, id, last.at)
          else CountedStreak(cfg, id, pre, n - 1, last.at)
  }

  /** What one failure does to the counter: nothing while locked, one more, or a new one, gone at the MAX-th. */
  lemma CounterStep(cfg: Config, k: Keys, id: string, at: int, now: int)
    requires at <= now && Alive(Failed(cfg, k, id, at).0.attempts, id, now)
    requires Alive(k.attempts, id, at) ==> k.attempts[id].value > 0
    ensures var e := Failed(cfg, k, id, at).0.attempts[id];
            if StatusOf(cfg, k, id, at).isLocked then k == Failed(cfg, k, id, at).0
            else
              && e.value < cfg.maxAttempts && !StatusOf(cfg, Failed(cfg, k, id, at).0, id, now).isLocked
              && e == if Alive(k.attempts, id, at) then Entry(k.attempts[id].value + 1, k.attempts[id].deadline)
                      else Entry(1, at + cfg.windowSeconds * 1000)
  {
  }

  /** A live counter counts the current streak, and is never alive while the account reads as locked. */
  lemma {:induction false} CounterIsStreak(cfg: Config, id: string, h: seq<Event>, now: int)
    requires Ordered(h) && (|h| > 0 ==> h[|h| - 1].at <= now) && Alive(KeysAfter(cfg, id, h).attempts, id, now)
    ensures var k := KeysAfter(cfg, id, h);
            var n := k.attempts[id].value;
            && CountedStreak(cfg, id, h, n, now) && n < cfg.maxAttempts && !StatusOf(cfg, k, id, now).isLocked
            && k.attempts[id].deadline == h[|h| - n].at + cfg.windowSeconds * 1000
    decreases |h|
  {
    var pre, e := h[..|h| - 1], h[|h| - 1];
    var k := KeysAfter(cfg, id, pre);
    assert e.Failure?;
    if Alive(k.attempts, id, e.at) {
      CounterIsStreak(cfg, id, pre, e.at);
    }
    CounterStep(cfg, k, id, e.at, now);
  }

  lemma {:induction false} StreakIsCounter(cfg: Config, id: string, h: seq<Event>, n: nat, now: int)
    requires Ordered(h) && CountedStreak(cfg, id, h, n, now) && n < cfg.maxAttempts && h[|h| - 1].at <= now
    ensures Alive(KeysAfter(cfg, id, h).attempts, id, now)
    ensures KeysAfter(cfg, id, h).attempts[id] == Entry(n, h[|h| - n].at + cfg.windowSeconds * 1000)
    decreases n
  {
    var pre, e := h[..|h| - 1], h[|h| - 1];
    if n > 1 {
      StreakIsCounter(cfg, id, pre, n - 1, e.at);
    }
  }

  /**
   Over every ordered history a failure reports `justLocked` exactly when the account does not read
   as locked and it is the MAX-th of a streak of counted failures within the window of its first one.
   */
  lemma {:induction false} JustLockedExactly(cfg: Config, id: string, h: seq<Event>, now: int)
    requires Ordered(h) && (|h| > 0 ==> h[|h| - 1].at <= now)
    ensures Failed(cfg, KeysAfter(cfg, id, h), id, now).2 <==>
            && !ReadsLocked(cfg, id, h, now)
            && (cfg.maxAttempts > 1 ==> CountedStreak(cfg, id, h, cfg.maxAttempts - 1, now))
  {
    if Alive(KeysAfter(cfg, id, h).attempts, id, now) {
      CounterIsStreak(cfg, id, h, now);
    }
    if cfg.maxAttempts > 1 && CountedStreak(cfg, id, h, cfg.maxAttempts - 1, now) {
      StreakIsCounter(cfg, id, h, cfg.maxAttempts - 1, now);
    }
  }

  /**
   A reported lock is stored with the reported unlock time exactly when no lock was alive: SET NX
   keeps an old one.
   */
  lemma ReportTrueExactly(cfg: Config, k: Keys, id: string, now: int)
    requires ValidConfig(cfg) && Failed(cfg, k, id, now).2
    ensures var (k', status, _) := Failed(cfg, k, id, now);
            id in k'.locks && (status.unlocksAt == Some(k'.locks[id].deadline) <==> !Alive(k.locks, id, now))
  {
  }

  /** Every failure that says it locked the account leaves a lock with the unlock time it reports. */
  ghost predicate ReportsTrue(cfg: Config, id: string, h: seq<Event>) {
    forall i :: 0 <= i < |h| && h[i].Failure? ==>
      var (k', status, justLocked) := Failed(cfg, KeysAfter(cfg, id, h[..i]), id, h[i].at);
      justLocked ==> id in k'.locks && status.unlocksAt == Some(k'.locks[id].deadline)
  }

  /** Event `i` is the MAX-th counted failure of its streak while a lock is still alive. */
  ghost predicate LocksOverLock(cfg: Config, id: string, h: seq<Event>, i: nat)
    requires i < |h|
  {
    && h[i].Failure? && !ReadsLocked(cfg, id, h[..i], h[i].at) && Alive(KeysAfter(cfg, id, h[..i]).locks, id, h[i].at)
    && (cfg.maxAttempts > 1 ==> CountedStreak(cfg, id, h[..i], cfg.maxAttempts - 1, h[i].at))
  }

  /**
   Over every ordered history each reported lock is the stored one exactly when no failure is the
   MAX-th of its streak while a lock is alive.
   */
  lemma ReportsTrueExactly(cfg: Config, id: string, h: seq<Event>)
    requires ValidConfig(cfg) && Ordered(h)
    ensures ReportsTrue(cfg, id, h) <==> forall i :: 0 <= i < |h| ==> !LocksOverLock(cfg, id, h, i)
  {
    forall i | 0 <= i < |h|
      ensures var k := KeysAfter(cfg, id, h[..i]);
              h[i].Failure? && Failed(cfg, k, id, h[i].at).2 && Alive(k.locks, id, h[i].at) <==>
              LocksOverLock(cfg, id, h, i)
    {
      JustLockedExactly(cfg, id, h[..i], h[i].at);
    }
    forall i | 0 <= i < |h| && h[i].Failure? && Failed(cfg, KeysAfter(cfg, id, h[..i]), id, h[i].at).2
      ensures var (k', status, _) := Failed(cfg, KeysAfter(cfg, id, h[..i]), id, h[i].at);
              id in k'.locks && (status.unlocksAt == Some(k'.locks[id].deadline) <==>
                !Alive(KeysAfter(cfg, id, h[..i]).locks, id, h[i].at))
    {
      ReportTrueExactly(cfg, KeysAfter(cfg, id, h[..i]), id, h[i].at);
    }
  }

  /** That can happen only in the last half second of a lock. */
  lemma ReportsTrueWhenNoneClosing(cfg: Config, id: string, h: seq<Event>)
    requires ValidConfig(cfg) && Ordered(h) && NoneClosing(cfg, h)
    ensures ReportsTrue(cfg, id, h)
  {
    forall i | 0 <= i < |h|
      ensures !LocksOverLock(cfg, id, h, i)
    {
      UndisturbedPrefix(cfg, h, i);
      KeysAreTheFold(cfg, id, h[..i], h[i].at);
    }
    ReportsTrueExactly(cfg, id, h);
  }

  /** Failures before the stored lock's deadline leave it where it was, after every history. */
  lemma {:induction false} LockNeverMoves(cfg: Config, id: string, h: seq<Event>, later: seq<Event>)
    requires id in KeysAfter(cfg, id, h).locks
    requires forall i :: 0 <= i < |later| ==>
               later[i].Failure? && later[i].at < KeysAfter(cfg, id, h).locks[id].deadline
    ensures id in KeysAfter(cfg, id, h + later).locks
    ensures KeysAfter(cfg, id, h + later).locks[id] == KeysAfter(cfg, id, h).locks[id]
    decreases |later|
  {
    if |later| == 0 {
      assert h + later == h;
    } else {
      var pre := later[..|later| - 1];
      LockNeverMoves(cfg, id, h, pre);
      assert (h + later)[..|h + later| - 1] == h + pre;
    }
  }

  // ----- whole-second clocks and the half second before a lock ends

  ghost predicate WholeSeconds(h: seq<Event>) {
    forall i :: 0 <= i < |h| ==> h[i].at % 1000 == 0
  }

  lemma {:induction false} LockedAtAnEvent(cfg: Config, h: seq<Event>)
    requires WholeSeconds(h) && PhaseAfter(cfg, h).Locked?
    ensures PhaseAfter(cfg, h).since % 1000 == 0
    decreases |h|
  {
    var pre := h[..|h| - 1];
    if Settle(cfg, PhaseAfter(cfg, pre), h[|h| - 1].at).Locked? {
      LockedAtAnEvent(cfg, pre);
    }
  }

  /** On a whole-second clock no failure can fall into a lock's last half second. */
  lemma WholeSecondsNeverClosing(cfg: Config, h: seq<Event>)
    requires WholeSeconds(h)
    ensures NoneClosing(cfg, h)
  {
    forall i | 0 <= i < |h| && h[i].Failure?
      ensures !Closing(cfg, PhaseAfter(cfg, h[..i]), h[i].at)
    {
      if PhaseAfter(cfg, h[..i]).Locked? {
        LockedAtAnEvent(cfg, h[..i]);
      }
    }
  }

  /** On a whole-second clock the reported lock and unlock times are the true ones. */
  lemma StatusIsExact(cfg: Config, k: Keys, id: string, p: Phase, now: int)
    requires ValidConfig(cfg) && Represents(cfg, k, id, p, now)
    requires p.Locked? ==> (p.since - now) % 1000 == 0
    ensures var q, s := Settle(cfg, p, now), StatusOf(cfg, k, id, now);
            && (s.isLocked <==> q.Locked?)
            && (q.Locked? ==> s.lockedAt == Some(q.since) && s.unlocksAt == Some(q.since + cfg.lockSeconds * 1000))
            && (q.Locked? ==>
                  && s.minutesRemaining.Some? && s.attemptsRemaining == 0
                  && var left := q.since + cfg.lockSeconds * 1000 - now;
                     60000 * (s.minutesRemaining.value - 1) < left <= 60000 * s.minutesRemaining.value)
            && (q.Counting? && q.failures <= cfg.maxAttempts ==> s.attemptsRemaining == cfg.maxAttempts - q.failures)
            && (q.Clear? && cfg.maxAttempts >= 0 ==> s == Unlocked(cfg.maxAttempts))
  {
  }

  /**
   A failure that finds the keys as the fold has them leaves the lock and a counter alive together
   exactly when it falls into the lock's last half second and opens a counter.
   */
  lemma KeysCoexistExactly(cfg: Config, k: Keys, id: string, p: Phase, now: int)
    requires ValidConfig(cfg) && Represents(cfg, k, id, p, now)
    ensures Together(Failed(cfg, k, id, now).0, id, now) <==>
            Closing(cfg, p, now) && cfg.maxAttempts > 1 && cfg.windowSeconds > 0
  {
  }

  predicate Together(k: Keys, id: string, now: int) { Alive(k.locks, id, now) && Alive(k.attempts, id, now) }

  /** `now` lies after the first `n` events and not after the next one. */
  ghost predicate During(h: seq<Event>, n: int, now: int) {
    0 <= n <= |h| && (n > 0 ==> h[n - 1].at <= now) && (n < |h| ==> now <= h[n].at)
  }

  ghost predicate NeverTogether(cfg: Config, id: string, h: seq<Event>) {
    forall n, now :: During(h, n, now) ==> !Together(KeysAfter(cfg, id, h[..n]), id, now)
  }

  ghost predicate AlwaysTheFold(cfg: Config, id: string, h: seq<Event>) {
    forall n, now :: During(h, n, now) ==> Represents(cfg, KeysAfter(cfg, id, h[..n]), id, PhaseAfter(cfg, h[..n]), now)
  }

  lemma {:induction false} FirstClosing(cfg: Config, h: seq<Event>) returns (i: nat)
    requires !NoneClosing(cfg, h)
    ensures i < |h| && h[i].Failure? && Closing(cfg, PhaseAfter(cfg, h[..i]), h[i].at) && NoneClosing(cfg, h[..i])
    decreases |h|
  {
    var pre := h[..|h| - 1];
    assert forall i :: 0 <= i < |pre| ==> pre[..i] == h[..i];
    if NoneClosing(cfg, pre) {
      i := |h| - 1;
    } else {
      i := FirstClosing(cfg, pre);
    }
  }

  /** Without a window no second failure is ever counted, so no lock is made. */
  lemma {:induction false} LockedNeedsWindow(cfg: Config, h: seq<Event>)
    requires Ordered(h) && cfg.maxAttempts > 1 && PhaseAfter(cfg, h).Locked?
    ensures cfg.windowSeconds > 0
    decreases |h|
  {
    var pre, e := h[..|h| - 1], h[|h| - 1];
    if Settle(cfg, PhaseAfter(cfg, pre), e.at).Locked? {
      LockedNeedsWindow(cfg, pre);
    } else {
      CountingIsStreak(cfg, pre, e.at);
    }
  }

  /**
   Main theorem. Over every ordered history: the keys are the fold at every instant, and lock and
   counter are never alive together at any instant, exactly when MAX is at most 1 or no failure
   falls into the last half second of a lock.
   */
  lemma {:induction false} KeysAreTheFoldExactly(cfg: Config, id: string, h: seq<Event>)
    requires ValidConfig(cfg) && Ordered(h)
    ensures AlwaysTheFold(cfg, id, h) <==> Undisturbed(cfg, h)
    ensures NeverTogether(cfg, id, h) <==> Undisturbed(cfg, h)
  {
    if Undisturbed(cfg, h) {
      forall n, now | During(h, n, now)
        ensures Represents(cfg, KeysAfter(cfg, id, h[..n]), id, PhaseAfter(cfg, h[..n]), now)
      {
        UndisturbedPrefix(cfg, h, n);
        KeysAreTheFold(cfg, id, h[..n], now);
      }
    } else {
      var i := FirstClosing(cfg, h);
      var k, p, now := KeysAfter(cfg, id, h[..i]), PhaseAfter(cfg, h[..i]), h[i].at;
      KeysAreTheFold(cfg, id, h[..i], now);
      LockedNeedsWindow(cfg, h[..i]);
      KeysCoexistExactly(cfg, k, id, p, now);
      assert h[..i + 1][..i] == h[..i];
      assert During(h, i + 1, now) && Together(KeysAfter(cfg, id, h[..i + 1]), id, now);
    }
  }

  /** What a failure reports: the attempts left after it, or a lock of the full duration. */
  lemma FailureReports(cfg: Config, k: Keys, id: string, p: Phase, now: int)
    requires ValidConfig(cfg) && Represents(cfg, k, id, p, now) && !Closing(cfg, p, now)
    ensures var (_, s, justLocked) := Failed(cfg, k, id, now);
            var p' := Next(cfg, p, Failure(now));
            && (p'.Counting? ==> s == Unlocked(cfg.maxAttempts - p'.failures) && p'.failures < cfg.maxAttempts)
            && (justLocked ==> s.attemptsRemaining == 0 && s.lockedAt == Some(now) && s.minutesRemaining.Some?)
            && (justLocked ==> 60 * (s.minutesRemaining.value - 1) < cfg.lockSeconds <= 60 * s.minutesRemaining.value)
  {
  }

  /** Neither a failure nor a reset touches the keys of another identifier; a reset leaves none of its own. */
  lemma OthersUntouched(cfg: Config, k: Keys, id: string, other: string, now: int)
    requires other != id
    ensures SameKeys(k, Failed(cfg, k, id, now).0, other) && SameKeys(k, Cleared(k, id), other)
    ensures StatusOf(cfg, Cleared(k, id), id, now) == Unlocked(if cfg.maxAttempts > 0 then cfg.maxAttempts else 0)
  {
  }

  predicate SameKeys(k: Keys, k': Keys, id: string) {
    && (id in k.attempts <==> id in k'.attempts) && (id in k.attempts ==> k'.attempts[id] == k.attempts[id])
    && (id in k.locks <==> id in k'.locks) && (id in k.locks ==> k'.locks[id] == k.locks[id])
  }

  // ----- concrete histories

  lemma {:induction false} OneMore(cfg: Config, id: string, h: seq<Event>, e: Event)
    ensures KeysAfter(cfg, id, h + [e]) ==
            if e.Failure? then Failed(cfg, KeysAfter(cfg, id, h), id, e.at).0 else Cleared(KeysAfter(cfg, id, h), id)
  {
    assert (h + [e])[..|h + [e]| - 1] == h;
  }

  const TWO_PER_WINDOW := Config(2, 600, 60)

  /** The keys of the history below: a lock with 300 ms left, and a counter beside it. */
  lemma {:induction false} HalfSecondHistory(h: seq<Event>)
    requires h == [Failure(0), Failure(0), Failure(59700)]
    ensures KeysAfter(TWO_PER_WINDOW, "u", h) == Keys(map["u" := Entry(1, 659700)], map["u" := Entry("1", 60000)])
  {
    var cfg := TWO_PER_WINDOW;
    assert KeysAfter(cfg, "u", [Failure(0)]) == Keys(map["u" := Entry(1, 600000)], map[]) by {
      OneMore(cfg, "u", [], Failure(0));
      assert [] + [Failure(0)] == [Failure(0)];
    }
    assert KeysAfter(cfg, "u", [Failure(0), Failure(0)]) == Keys(map[], map["u" := Entry("1", 60000)]) by {
      OneMore(cfg, "u", [Failure(0)], Failure(0));
      assert [Failure(0)] + [Failure(0)] == [Failure(0), Failure(0)];
    }
    OneMore(cfg, "u", [Failure(0), Failure(0)], Failure(59700));
    assert h == [Failure(0), Failure(0)] + [Failure(59700)];
  }

  /**
   A lock and a counter alive together, and then a reported lock that does not exist: the fourth
   failure says the account is locked until 119800, but from 60000 on no key is alive.
   */
  lemma {:induction false} HalfSecondFailures(h: seq<Event>)
    requires h == [Failure(0), Failure(0), Failure(59700)]
    ensures Together(KeysAfter(TWO_PER_WINDOW, "u", h), "u", 59700)
    ensures var (k, status, justLocked) := Failed(TWO_PER_WINDOW, KeysAfter(TWO_PER_WINDOW, "u", h), "u", 59800);
            && justLocked && status.unlocksAt == Some(119800)
            && !Alive(k.attempts, "u", 59800) && Alive(k.locks, "u", 59800) && !AnyAlive(k, "u", 60000)
  {
    HalfSecondHistory(h);
  }

  /** An admin unlock answers true for an account that is not locked but has a failure pending. */
  lemma UnlockWithoutLock()
    ensures var k := KeysAfter(TWO_PER_WINDOW, "u", [Failure(0)]);
            AnyAlive(k, "u", 1000) && !Alive(k.locks, "u", 1000) && !StatusOf(TWO_PER_WINDOW, k, "u", 1000).isLocked
  {
    OneMore(TWO_PER_WINDOW, "u", [], Failure(0));
    assert [] + [Failure(0)] == [Failure(0)];
  }
}
