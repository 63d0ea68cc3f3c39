/**
 The part of Redis the components rely on: keys that hold a value until they are deleted or
 their deadline passes. Times are milliseconds; a key is gone from the deadline on.
 */
module RedisKeys {
  import opened Wrappers

  datatype Entry<+V> = Entry(value: V, deadline: int)

  type Db<V> = map<string, Entry<V>>

  predicate Alive<V>(db: Db<V>, key: string, now: int) {
    key in db && now < db[key].deadline
  }

  /** GET */
  function Get<V>(db: Db<V>, key: string, now: int): Option<V> {
    if Alive(db, key, now) then Some(db[key].value) else None
  }

  /** SET key value EX seconds */
  function SetEx<V>(db: Db<V>, key: string, value: V, now: int, seconds: int): Db<V> {
    db[key := Entry(value, now + seconds * 1000)]
  }

  /** DEL */
  function Del<V>(db: Db<V>, key: string): Db<V> {
    db - {key}
  }

  /** INCR: one more than the live counter, which starts from zero. */
  function Incremented(db: Db<nat>, key: string, now: int): nat {
    if Alive(db, key, now) then db[key].value + 1 else 1
  }

  /** INCR, then EXPIRE when the result is 1: a window opened by its first increment. */
  function IncrInWindow(db: Db<nat>, key: string, now: int, seconds: int): Db<nat> {
    var n := Incremented(db, key, now);
    db[key := Entry(n, if n == 1 then now + seconds * 1000 else db[key].deadline)]
  }

  /** TTL: the remaining time in seconds, rounded to the nearest one; -2 without a key. */
  function Ttl<V>(db: Db<V>, key: string, now: int): int {
    if Alive(db, key, now) then (db[key].deadline - now + 500) / 1000 else -2
  }

  /** SET key value EX seconds NX */
  function SetNx<V>(db: Db<V>, key: string, value: V, now: int, seconds: int): Db<V> {
    if Alive(db, key, now) then db else SetEx(db, key, value, now, seconds)
  }
}
