/**
 Idempotent transaction creation: the `createOrReuse` protocol of the transaction
 controller, as interleaved steps of any number of requests.

 One action is one awaited call. A request takes a lease on its idempotency key, looks
 for an active row, takes a lease on the phone number, looks again, inserts, publishes one
 job, and recovers from a unique violation. The row table is the idempotency columns of the
 `transactions` table, indexed by creation order.

 What the deployment may do is a parameter (`Config`): whether the unique index on the key
 exists, whether a lease may run out while its holder is still working, whether a find may be
 answered by a lagging read replica, and whether a row may lose its key before it expires, as it
 does when its transaction reaches a terminal status.
 */
module Idempotency {
  import opened Wrappers
  import opened Collections

  type Key = string

  /** `ttl` is the lifetime of a key in milliseconds (IDEMPOTENCY_TTL_HOURS). */
  datatype Config = Config(uniqueIndex: bool, leasesExpire: bool, staleReads: bool, earlyRelease: bool, ttl: int)

  /** The two idempotency columns of a row; a row without them is `None`. */
  datatype Hold = Hold(key: Key, expiresAt: int)
  type Table = seq<Option<Hold>>

  datatype Lock = KeyLock(key: Key) | PhoneLock(phone: string)

  datatype Outcome = Reused(row: nat) | Created(row: nat) | Failed

  /** The three places that look a key up. */
  datatype Stage = Outer | Inner | Recovery

  datatype Pc =
    | Start
    | Releasing(stage: Stage)
    | Finding(stage: Stage)
    | AwaitPhone
    | Creating(expiresAt: int)
    | Queueing(row: nat)
    | LeavingPhone(result: Outcome, violation: bool)
    | LeavingKey(result: Outcome)
    | Done(result: Outcome)

  datatype Request = Request(key: Option<Key>, phone: string, pc: Pc)

  /**
   `table` is the primary; `past` holds every earlier committed version of it, for replicas.
   `born` remembers the columns each row was inserted with, `dropped` the rows whose publish failed.
   */
  datatype State = State(
    now: int, table: Table, born: Table, past: seq<Table>,
    locks: map<Lock, nat>, jobs: seq<nat>, dropped: seq<nat>, reqs: seq<Request>)

  // ----- the transaction model's three statements

  predicate Live(row: Option<Hold>, k: Key, now: int) {
    row.Some? && row.value.key == k && now < row.value.expiresAt
  }

  predicate Expired(row: Option<Hold>, now: int) { row.None? || row.value.expiresAt <= now }

  predicate Holds(row: Option<Hold>, k: Key) {
    row.Some? && row.value.key == k
  }

  /** UPDATE ... SET idempotency_key = NULL WHERE the key matches and has expired. */
  function ReleaseExpired(t: Table, k: Key, now: int): (r: Table)
    ensures |r| == |t|
    ensures forall i :: 0 <= i < |t| ==> r[i] == None || r[i] == t[i]
    ensures forall i, k' :: 0 <= i < |t| ==> Live(r[i], k', now) == Live(t[i], k', now)
    ensures forall i :: 0 <= i < |t| && Holds(r[i], k) ==> now < r[i].value.expiresAt
    ensures forall i :: 0 <= i < |t| && !Holds(t[i], k) ==> r[i] == t[i]
  {
    seq(|t|, i requires 0 <= i < |t| =>
      if Holds(t[i], k) && t[i].value.expiresAt <= now then None else t[i])
  }

  /** SELECT ... ORDER BY created_at DESC LIMIT 1 over the unexpired rows of the key. */
  function FindActive(t: Table, k: Key, now: int): (r: Option<nat>)
    ensures r.Some? ==> r.value < |t| && Live(t[r.value], k, now)
    ensures r.Some? ==> forall j :: r.value < j < |t| ==> !Live(t[j], k, now)
    ensures r.None? ==> forall j :: 0 <= j < |t| ==> !Live(t[j], k, now)
  {
    if |t| == 0 then None
    else if Live(t[|t| - 1], k, now) then Some(|t| - 1)
    else FindActive(t[..|t| - 1], k, now)
  }

  predicate KeyTaken(t: Table, k: Key) {
    exists i :: 0 <= i < |t| && Holds(t[i], k)
  }

  // ----- actions

  /** How an INSERT may fail beside the key's own unique index. */
  datatype Fault = NoFault | OtherViolation | OtherError

  datatype Action =
    | Tick(to: int)
    | LeaseExpires(lock: Lock)
    | KeyReleased(row: nat)
    | TakeKeyLock(p: nat)
    | RefuseKeyLock(p: nat)
    | BeginUnkeyed(p: nat)
    | ReleaseOld(p: nat)
    | Find(p: nat, version: nat)
    | LookupFails(p: nat)
    | TakePhoneLock(p: nat)
    | RefusePhoneLock(p: nat)
    | Insert(p: nat, fault: Fault)
    | Enqueue(p: nat, ok: bool)
    | DropPhoneLock(p: nat, throws: bool)
    | DropKeyLock(p: nat, throws: bool)

  predicate AtPc(s: State, p: nat, pc: Pc) { p < |s.reqs| && s.reqs[p].pc == pc }

  predicate Enabled(cfg: Config, s: State, a: Action) {
    match a
    case Tick(to) => s.now <= to
    case LeaseExpires(lock) => cfg.leasesExpire && lock in s.locks
    case KeyReleased(row) => row < |s.table| && (cfg.earlyRelease || Expired(s.table[row], s.now))
    case TakeKeyLock(p) => AtPc(s, p, Start) && s.reqs[p].key.Some? && KeyLock(s.reqs[p].key.value) !in s.locks
    case RefuseKeyLock(p) => AtPc(s, p, Start) && s.reqs[p].key.Some?
    case BeginUnkeyed(p) => AtPc(s, p, Start) && s.reqs[p].key.None?
    case ReleaseOld(p) => p < |s.reqs| && s.reqs[p].pc.Releasing? && s.reqs[p].key.Some?
    case Find(p, version) =>
      && p < |s.reqs| && s.reqs[p].pc.Finding? && s.reqs[p].key.Some?
      && version <= |s.past| && (version == |s.past| || cfg.staleReads)
    case LookupFails(p) => p < |s.reqs| && (s.reqs[p].pc.Releasing? || s.reqs[p].pc.Finding?)
    case TakePhoneLock(p) => AtPc(s, p, AwaitPhone) && PhoneLock(s.reqs[p].phone) !in s.locks
    case RefusePhoneLock(p) => AtPc(s, p, AwaitPhone)
    case Insert(p, _) => p < |s.reqs| && s.reqs[p].pc.Creating?
    case Enqueue(p, _) => p < |s.reqs| && s.reqs[p].pc.Queueing?
    case DropPhoneLock(p, _) => p < |s.reqs| && s.reqs[p].pc.LeavingPhone?
    case DropKeyLock(p, _) => p < |s.reqs| && s.reqs[p].pc.LeavingKey? && s.reqs[p].key.Some?
  }

  function Goto(s: State, p: nat, pc: Pc): State
    requires p < |s.reqs|
  {
    s.(reqs := s.reqs[p := s.reqs[p].(pc := pc)])
  }

  /** Commits a new version of the table; replicas may still serve the old one. */
  function Commit(s: State, t: Table): State {
    s.(table := t, past := s.past + [s.table])
  }

  /** What a caller of `createOrReuse` sees: keyed requests still have to drop the key lease. */
  function Leave(req: Request, result: Outcome): Pc {
    if req.key.Some? then LeavingKey(result) else Done(result)
  }

  /** A failure inside a stage: the inner one unwinds through the phone lease. */
  function Unwind(req: Request, stage: Stage): Pc {
    if stage.Inner? then LeavingPhone(Failed, false) else Leave(req, Failed)
  }

  function AfterFind(cfg: Config, s: State, stage: Stage, found: Option<nat>): Pc {
    match (stage, found)
    case (Inner, Some(r)) => LeavingPhone(Reused(r), false)
    case (Inner, None) => Creating(s.now + cfg.ttl)
    case (_, Some(r)) => LeavingKey(Reused(r))
    case (Outer, None) => AwaitPhone
    case (Recovery, None) => LeavingKey(Failed)
  }

  function Unlock(locks: map<Lock, nat>, l: Lock, p: nat): map<Lock, nat> {
    if l in locks && locks[l] == p then locks - {l} else locks
  }

  function DoInsert(cfg: Config, s: State, p: nat, fault: Fault): State
    requires p < |s.reqs| && s.reqs[p].pc.Creating?
  {
    var req := s.reqs[p];
    if fault.OtherError? then Goto(s, p, LeavingPhone(Failed, false))
    else if fault.OtherViolation? || (cfg.uniqueIndex && req.key.Some? && KeyTaken(s.table, req.key.value)) then
      Goto(s, p, LeavingPhone(Failed, true))
    else
      var row := if req.key.Some? then Some(Hold(req.key.value, req.pc.expiresAt)) else None;
      Goto(Commit(s, s.table + [row]).(born := s.born + [row]), p, Queueing(|s.table|))
  }

  function DoDropPhoneLock(s: State, p: nat, throws: bool): State
    requires p < |s.reqs| && s.reqs[p].pc.LeavingPhone?
  {
    var req := s.reqs[p];
    if throws then Goto(s, p, Leave(req, Failed))
    else
      var s' := s.(locks := Unlock(s.locks, PhoneLock(req.phone), p));
      if req.pc.result.Failed? && req.pc.violation && req.key.Some? then Goto(s', p, Releasing(Recovery))
      else Goto(s', p, Leave(req, req.pc.result))
  }

  function Apply(cfg: Config, s: State, a: Action): State
    requires Enabled(cfg, s, a)
  {
    match a
    case Tick(to) => s.(now := to)
    case LeaseExpires(lock) => s.(locks := s.locks - {lock})
    case KeyReleased(row) => Commit(s, s.table[row := None])
    case TakeKeyLock(p) =>
      Goto(s.(locks := s.locks[KeyLock(s.reqs[p].key.value) := p]), p, Releasing(Outer))
    case RefuseKeyLock(p) => Goto(s, p, Done(Failed))
    case BeginUnkeyed(p) => Goto(s, p, AwaitPhone)
    case ReleaseOld(p) =>
      Goto(Commit(s, ReleaseExpired(s.table, s.reqs[p].key.value, s.now)), p, Finding(s.reqs[p].pc.stage))
    case Find(p, version) =>
      var t := if version == |s.past| then s.table else s.past[version];
      Goto(s, p, AfterFind(cfg, s, s.reqs[p].pc.stage, FindActive(t, s.reqs[p].key.value, s.now)))
    case LookupFails(p) => Goto(s, p, Unwind(s.reqs[p], s.reqs[p].pc.stage))
    case TakePhoneLock(p) =>
      var pc := if s.reqs[p].key.Some? then Releasing(Inner) else Creating(s.now);
      Goto(s.(locks := s.locks[PhoneLock(s.reqs[p].phone) := p]), p, pc)
    case RefusePhoneLock(p) => Goto(s, p, Leave(s.reqs[p], Failed))
    case Insert(p, fault) => DoInsert(cfg, s, p, fault)
    case Enqueue(p, ok) =>
      var r := s.reqs[p].pc.row;
      if ok then Goto(s.(jobs := s.jobs + [r]), p, LeavingPhone(Created(r), false))
      else Goto(s.(dropped := s.dropped + [r]), p, LeavingPhone(Failed, false))
    case DropPhoneLock(p, throws) => DoDropPhoneLock(s, p, throws)
    case DropKeyLock(p, throws) =>
      if throws then Goto(s, p, Done(Failed))
      else Goto(s.(locks := Unlock(s.locks, KeyLock(s.reqs[p].key.value), p)), p, Done(s.reqs[p].pc.result))
  }

  ghost predicate Init(s: State) {
    && s.table == [] && s.born == [] && s.past == [] && s.locks == map[] && s.jobs == [] && s.dropped == []
    && forall p :: 0 <= p < |s.reqs| ==> s.reqs[p].pc == Start
  }

  ghost predicate IsRun(cfg: Config, s: State, acts: seq<Action>)
    decreases |acts|
  {
    |acts| == 0 || (Enabled(cfg, s, acts[0]) && IsRun(cfg, Apply(cfg, s, acts[0]), acts[1..]))
  }

  ghost function After(cfg: Config, s: State, acts: seq<Action>): State
    requires IsRun(cfg, s, acts)
    decreases |acts|
  {
    if |acts| == 0 then s else After(cfg, Apply(cfg, s, acts[0]), acts[1..])
  }

  ghost predicate RunsTo(cfg: Config, s0: State, acts: seq<Action>, s: State) {
    Init(s0) && IsRun(cfg, s0, acts) && After(cfg, s0, acts) == s
  }

  ghost predicate Reachable(cfg: Config, s: State) {
    exists s0, acts :: RunsTo(cfg, s0, acts, s)
  }

  // ----- what is promised of a state

  predicate SameKey(a: Option<Hold>, b: Option<Hold>) {
    a.Some? && b.Some? && a.value.key == b.value.key
  }

  /** A key never has two unexpired transactions. */
  ghost predicate OneLiveRowPerKey(s: State) {
    forall i, j, k :: 0 <= i < j < |s.table| && Live(s.table[i], k, s.now) ==> !Live(s.table[j], k, s.now)
  }

  ghost predicate IsFirstRow(s: State, f: nat, k: Key) {
    f < |s.born| && Holds(s.born[f], k) && forall i :: 0 <= i < f ==> !Holds(s.born[i], k)
  }

  ghost predicate Answered(s: State, p: nat, r: nat) {
    p < |s.reqs| && (s.reqs[p].pc == Done(Reused(r)) || s.reqs[p].pc == Done(Created(r)))
  }

  /** Until the first row of a key expires, every success for that key names it. */
  ghost predicate AnswersNameFirstRow(s: State) {
    forall p: nat, r: nat, f: nat, k ::
      Answered(s, p, r) && s.reqs[p].key == Some(k) && IsFirstRow(s, f, k) && s.now < s.born[f].value.expiresAt
      ==> r == f
  }

  /** The same, for as long as that row also holds its key. */
  ghost predicate AnswersNameHoldingRow(s: State) {
    forall p: nat, r: nat, f: nat, k ::
      Answered(s, p, r) && s.reqs[p].key == Some(k) && IsFirstRow(s, f, k) && f < |s.table| &&
        Live(s.table[f], k, s.now)
      ==> r == f
  }

  /** No row is published twice. */
  ghost predicate OneJobPerRow(s: State) { NoDuplicates(s.jobs) }

  ghost predicate Safe(s: State) {
    OneLiveRowPerKey(s) && AnswersNameFirstRow(s) && OneJobPerRow(s)
  }

  ghost predicate AlwaysSafe(cfg: Config) {
    forall s :: Reachable(cfg, s) ==> Safe(s)
  }

  /** What is left of it when rows may lose their key early. */
  ghost predicate Unique(s: State) {
    OneLiveRowPerKey(s) && AnswersNameHoldingRow(s) && OneJobPerRow(s)
  }

  ghost predicate AlwaysUnique(cfg: Config) {
    forall s :: Reachable(cfg, s) ==> Unique(s)
  }

  /** About to answer with a row: only the release of the key's lease is left. */
  predicate Brings(pc: Pc, r: nat) { pc.LeavingKey? && !pc.result.Failed? && pc.result.row == r }

  /** A request about to answer names the key's unexpired row, if there is one. */
  ghost predicate AnswersCurrent(s: State) {
    forall p, k, r: nat, j ::
      0 <= p < |s.reqs| && s.reqs[p].key == Some(k) && Brings(s.reqs[p].pc, r) && 0 <= j < |s.table| &&
        Live(s.table[j], k, s.now)
      ==> j == r
  }

  ghost predicate AlwaysCurrent(cfg: Config) {
    forall s :: Reachable(cfg, s) ==> AnswersCurrent(s)
  }

  // ----- the inductive invariant

  /** `v` is an earlier or the present state of the rows in `born`. */
  ghost predicate VersionOf(v: Table, born: Table) {
    |v| <= |born| && forall i :: 0 <= i < |v| ==> v[i] == None || v[i] == born[i]
  }

  ghost predicate Versions(s: State) {
    && |s.table| == |s.born|
    && VersionOf(s.table, s.born)
    && forall n :: 0 <= n < |s.past| ==> VersionOf(s.past[n], s.born)
  }

  ghost predicate NamesOwnRow(s: State, key: Option<Key>, r: nat) {
    r < |s.born| && (key.Some? ==> Holds(s.born[r], key.value))
  }

  ghost predicate OutcomeOk(s: State, key: Option<Key>, o: Outcome) {
    && (!o.Failed? ==> NamesOwnRow(s, key, o.row))
    && (o.Created? ==> o.row in s.jobs)
  }

  ghost predicate PcOk(s: State, req: Request) {
    match req.pc
    case Queueing(r) => NamesOwnRow(s, req.key, r) && r !in s.jobs && r !in s.dropped
    case LeavingPhone(o, _) => OutcomeOk(s, req.key, o)
    case LeavingKey(o) => req.key.Some? && OutcomeOk(s, req.key, o)
    case Done(o) => OutcomeOk(s, req.key, o)
    case Releasing(_) => req.key.Some?
    case Finding(_) => req.key.Some?
    case _ => true
  }

  ghost predicate Requests(s: State) {
    forall p :: 0 <= p < |s.reqs| ==> PcOk(s, s.reqs[p])
  }

  ghost predicate InFlight(s: State, r: nat) {
    exists p :: 0 <= p < |s.reqs| && s.reqs[p].pc == Queueing(r)
  }

  /** The queue and the failed publishes name each row at most once. */
  ghost predicate QueueOk(s: State) {
    && NoDuplicates(s.jobs) && NoDuplicates(s.dropped)
    && (forall i :: 0 <= i < |s.jobs| ==> s.jobs[i] < |s.table| && s.jobs[i] !in s.dropped)
    && (forall i :: 0 <= i < |s.dropped| ==> s.dropped[i] < |s.table|)
  }

  /** Only one request is about to publish a given row. */
  ghost predicate SolePublisher(s: State) {
    forall p, q :: 0 <= p < q < |s.reqs| && s.reqs[p].pc.Queueing? ==> s.reqs[p].pc != s.reqs[q].pc
  }

  /** Every row is published, dropped or about to be published, and only one of the three. */
  ghost predicate JobAccounting(s: State) {
    && QueueOk(s) && SolePublisher(s)
    && (forall r :: 0 <= r < |s.table| ==> r in s.jobs || r in s.dropped || InFlight(s, r))
  }

  /** A row is never unexpired once a later row of the same key exists. */
  ghost predicate Succession(s: State) {
    forall i, j :: 0 <= i < j < |s.born| && i < |s.table| && SameKey(s.born[i], s.born[j]) ==>
      Expired(s.table[i], s.now)
  }

  /** Without early release only expired rows have lost their key. */
  ghost predicate NoEarlyLoss(s: State) {
    forall i :: 0 <= i < |s.born| && i < |s.table| && s.born[i].Some? && s.table[i].None? ==>
      s.born[i].value.expiresAt <= s.now
  }

  predicate InKeySection(pc: Pc) { !pc.Start? && !pc.Done? }

  /** Every keyed request holds the lease of its key from its first lookup to its answer. */
  ghost predicate LeaseHeld(s: State) {
    forall p, k :: 0 <= p < |s.reqs| && s.reqs[p].key == Some(k) && InKeySection(s.reqs[p].pc) ==>
      KeyLock(k) in s.locks && s.locks[KeyLock(k)] == p
  }

  /** A keyed request about to insert has seen that no row of its key is unexpired, and none is. */
  ghost predicate ClearToInsert(s: State) {
    forall p, i, k :: 0 <= p < |s.reqs| && s.reqs[p].key == Some(k) && s.reqs[p].pc.Creating? && 0 <= i < |s.table| ==>
      !Live(s.table[i], k, s.now)
  }

  /** The leases' part where neither leases nor replicas can fail. */
  ghost predicate Exclusion(s: State) { LeaseHeld(s) && ClearToInsert(s) }

  /** The unique index's part: a later row of a key exists only once the earlier ones let go. */
  ghost predicate IndexRespected(s: State) {
    forall i, j :: 0 <= i < j < |s.born| && i < |s.table| && SameKey(s.born[i], s.born[j]) ==> s.table[i].None?
  }

  /** With a lifetime that is not positive every row is born expired. */
  ghost predicate BornExpired(s: State) {
    && (forall i :: 0 <= i < |s.born| && s.born[i].Some? ==> s.born[i].value.expiresAt <= s.now)
    && (forall p :: 0 <= p < |s.reqs| && s.reqs[p].pc.Creating? ==> s.reqs[p].pc.expiresAt <= s.now)
  }

  /** A request that has found or inserted a row: no other row of its key is unexpired. */
  predicate Names(pc: Pc, r: nat) {
    pc == Queueing(r) || ((pc.LeavingPhone? || pc.LeavingKey?) && !pc.result.Failed? && pc.result.row == r)
  }

  ghost predicate NamesCurrent(s: State) {
    forall p, k, r: nat, j ::
      0 <= p < |s.reqs| && s.reqs[p].key == Some(k) && Names(s.reqs[p].pc, r) && 0 <= j < |s.table| &&
        Live(s.table[j], k, s.now)
      ==> j == r
  }

  predicate LeasesProtect(cfg: Config) { !cfg.leasesExpire && !cfg.staleReads }

  /** What keeps a second unexpired row of a key out. */
  predicate Guarded(cfg: Config) { cfg.ttl <= 0 || cfg.uniqueIndex || LeasesProtect(cfg) }

  /** What keeps a key with its first row until that row expires. */
  predicate Protected(cfg: Config) { cfg.ttl <= 0 || (Guarded(cfg) && !cfg.earlyRelease) }

  /** What keeps every answer up to date. */
  predicate UpToDate(cfg: Config) {
    cfg.ttl <= 0 || (!cfg.leasesExpire && (!cfg.staleReads || (cfg.uniqueIndex && !cfg.earlyRelease)))
  }

  ghost predicate Inv(cfg: Config, s: State) {
    && Versions(s) && Requests(s) && JobAccounting(s)
    && (cfg.ttl <= 0 ==> BornExpired(s))
    && (cfg.uniqueIndex ==> IndexRespected(s))
    && (!cfg.leasesExpire ==> LeaseHeld(s))
    && (!cfg.earlyRelease ==> NoEarlyLoss(s))
    && (LeasesProtect(cfg) ==> ClearToInsert(s) && Succession(s))
  }
}
