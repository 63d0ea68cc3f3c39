/**
 The controller's awaited calls as updates in place of the table, the leases and the queue it
 shares with every other request. Each method is one action of the protocol.
 */
module IdempotencyService {
  import opened Wrappers
  import opened Idempotency

  class TransactionController {
    const cfg: Config
    var now: int
    var table: Table
    var born: Table
    var past: seq<Table>
    var locks: map<Lock, nat>
    var jobs: seq<nat>
    var dropped: seq<nat>
    var reqs: seq<Request>

    function View(): State
      reads this
    {
      State(now, table, born, past, locks, jobs, dropped, reqs)
    }

    /** Requests wait to start; nothing is stored, leased or queued yet. */
    constructor (cfg: Config, now: int, arrivals: seq<(Option<Key>, string)>)
      ensures this.cfg == cfg && Init(View()) && View().now == now && |View().reqs| == |arrivals|
      ensures forall p :: 0 <= p < |arrivals| ==> View().reqs[p] == Request(arrivals[p].0, arrivals[p].1, Start)
    {
      this.cfg, this.now := cfg, now;
      table, born, past, locks, jobs, dropped := [], [], [], map[], [], [];
      reqs := seq(|arrivals|, p requires 0 <= p < |arrivals| => Request(arrivals[p].0, arrivals[p].1, Start));
    }

    method MoveTo(p: nat, pc: Pc)
      requires p < |reqs|
      modifies this`reqs
      ensures View() == Goto(old(View()), p, pc)
    {
      reqs := reqs[p := reqs[p].(pc := pc)];
    }

    /** lockManager.withLock on the idempotency key: the lease, or the error after its retries. */
    method AcquireKeyLock(p: nat)
      requires AtPc(View(), p, Start) && reqs[p].key.Some?
      modifies this`locks, this`reqs
      ensures KeyLock(old(reqs[p]).key.value) !in old(locks) ==> View() == Apply(cfg, old(View()), TakeKeyLock(p))
      ensures KeyLock(old(reqs[p]).key.value) in old(locks) ==> View() == Apply(cfg, old(View()), RefuseKeyLock(p))
    {
      var l := KeyLock(reqs[p].key.value);
      if l in locks {
        MoveTo(p, Done(Failed));
      } else {
        locks := locks[l := p];
        MoveTo(p, Releasing(Outer));
      }
    }

    /** findExistingIdempotentTransaction, first statement: release the key where it has expired. */
    method ReleaseExpiredKey(p: nat)
      requires Enabled(cfg, View(), ReleaseOld(p))
      modifies this`table, this`past, this`reqs
      ensures View() == Apply(cfg, old(View()), ReleaseOld(p))
    {
      past := past + [table];
      table := ReleaseExpired(table, reqs[p].key.value, now);
      MoveTo(p, Finding(reqs[p].pc.stage));
    }

    /** findExistingIdempotentTransaction, second statement, answered by the given version of the table. */
    method FindActiveRow(p: nat, version: nat) returns (found: Option<nat>)
      requires Enabled(cfg, View(), Find(p, version))
      modifies this`reqs
      ensures View() == Apply(cfg, old(View()), Find(p, version))
      ensures version == |past| ==> found == FindActive(table, reqs[p].key.value, now)
    {
      var t := if version == |past| then table else past[version];
      found := FindActive(t, reqs[p].key.value, now);
      if reqs[p].pc.stage.Inner? {
        if found.Some? {
          MoveTo(p, LeavingPhone(Reused(found.value), false));
        } else {
          MoveTo(p, Creating(now + cfg.ttl));
        }
      } else if found.Some? {
        MoveTo(p, LeavingKey(Reused(found.value)));
      } else if reqs[p].pc.stage.Outer? {
        MoveTo(p, AwaitPhone);
      } else {
        MoveTo(p, LeavingKey(Failed));
      }
    }

    /** lockManager.withLock on the phone number. */
    method AcquirePhoneLock(p: nat)
      requires AtPc(View(), p, AwaitPhone)
      modifies this`locks, this`reqs
      ensures PhoneLock(old(reqs[p]).phone) !in old(locks) ==> View() == Apply(cfg, old(View()), TakePhoneLock(p))
      ensures PhoneLock(old(reqs[p]).phone) in old(locks) ==> View() == Apply(cfg, old(View()), RefusePhoneLock(p))
    {
      var l := PhoneLock(reqs[p].phone);
      if l in locks {
        MoveTo(p, Leave(reqs[p], Failed));
      } else {
        locks := locks[l := p];
        if reqs[p].key.Some? {
          MoveTo(p, Releasing(Inner));
        } else {
          MoveTo(p, Creating(now));
        }
      }
    }

    /** transactionModel.create: a new row, or an error with or without code 23505. */
    method CreateRow(p: nat, fault: Fault) returns (row: Option<nat>)
      requires Enabled(cfg, View(), Insert(p, fault))
      modifies this`table, this`born, this`past, this`reqs
      ensures View() == Apply(cfg, old(View()), Insert(p, fault))
      ensures row.Some? <==> |table| > |old(table)|
      ensures row.Some? ==> row.value == |old(table)| && reqs[p].pc == Queueing(row.value)
    {
      var req := reqs[p];
      if fault.OtherError? {
        MoveTo(p, LeavingPhone(Failed, false));
        return None;
      }
      if fault.OtherViolation? || (cfg.uniqueIndex && req.key.Some? && KeyTaken(table, req.key.value)) {
        MoveTo(p, LeavingPhone(Failed, true));
        return None;
      }
      var hold := if req.key.Some? then Some(Hold(req.key.value, req.pc.expiresAt)) else None;
      past := past + [table];
      row := Some(|table|);
      table := table + [hold];
      born := born + [hold];
      MoveTo(p, Queueing(row.value));
    }

    /** addTransactionJob. */
    method PublishJob(p: nat, ok: bool)
      requires Enabled(cfg, View(), Enqueue(p, ok))
      modifies this`jobs, this`dropped, this`reqs
      ensures View() == Apply(cfg, old(View()), Enqueue(p, ok))
    {
      var r := reqs[p].pc.row;
      if ok {
        jobs := jobs + [r];
        MoveTo(p, LeavingPhone(Created(r), false));
      } else {
        dropped := dropped + [r];
        MoveTo(p, LeavingPhone(Failed, false));
      }
    }

    /** releaseIdempotencyKey of the transaction model, when a row's transaction reaches a terminal status. */
    method ReleaseTerminalKey(row: nat)
      requires Enabled(cfg, View(), KeyReleased(row))
      modifies this`table, this`past
      ensures View() == Apply(cfg, old(View()), KeyReleased(row))
    {
      past := past + [table];
      table := table[row := None];
    }

    /** The finally of the inner withLock, and the catch around it. */
    method ReleasePhoneLock(p: nat, throws: bool)
      requires Enabled(cfg, View(), DropPhoneLock(p, throws))
      modifies this`locks, this`reqs
      ensures View() == Apply(cfg, old(View()), DropPhoneLock(p, throws))
    {
      var req := reqs[p];
      if throws {
        MoveTo(p, Leave(req, Failed));
        return;
      }
      locks := Unlock(locks, PhoneLock(req.phone), p);
      if req.pc.result.Failed? && req.pc.violation && req.key.Some? {
        MoveTo(p, Releasing(Recovery));
      } else {
        MoveTo(p, Leave(req, req.pc.result));
      }
    }

    /** The finally of the outer withLock, and the answer. */
    method ReleaseKeyLock(p: nat, throws: bool)
      requires Enabled(cfg, View(), DropKeyLock(p, throws))
      modifies this`locks, this`reqs
      ensures View() == Apply(cfg, old(View()), DropKeyLock(p, throws))
    {
      var result := reqs[p].pc.result;
      if throws {
        MoveTo(p, Done(Failed));
        return;
      }
      locks := Unlock(locks, KeyLock(reqs[p].key.value), p);
      MoveTo(p, Done(result));
    }
  }
}
