/**
 The two OAuth token stores: maps that never evict, and Redis keys with a time to live.
 Keys stand for the hashed opaque tokens. Each store call happens at one instant.
 */
module OAuthStore {
  import opened Wrappers
  import opened RedisKeys

  datatype CodeRecord = CodeRecord(subject: string, clientId: string, redirectUri: string, scope: string,
    expiresAt: int)
  datatype TokenRecord = TokenRecord(subject: string, clientId: string, scope: string, expiresAt: int)

  datatype Op =
    | SaveCode(key: string, code: CodeRecord, ttl: int)
    | ConsumeCode(key: string)
    | SaveToken(key: string, token: TokenRecord, ttl: int)
    | GetToken(key: string)
    | RevokeToken(key: string)

  datatype Call = Call(at: int, op: Op)

  datatype Answer = Void | Code(code: Option<CodeRecord>) | Token(token: Option<TokenRecord>)

  // ----- the in-memory store

  datatype Memory = Memory(codes: map<string, CodeRecord>, tokens: map<string, TokenRecord>)

  function MemoryCode(m: Memory, key: string, now: int): Option<CodeRecord> {
    if key in m.codes && m.codes[key].expiresAt > now then Some(m.codes[key]) else None
  }

  function MemoryToken(m: Memory, key: string, now: int): Option<TokenRecord> {
    if key in m.tokens && m.tokens[key].expiresAt > now then Some(m.tokens[key]) else None
  }

  function MemoryStep(m: Memory, c: Call): (Memory, Answer) {
    match c.op
    case SaveCode(key, rec, _) => (m.(codes := m.codes[key := rec]), Void)
    case ConsumeCode(key) => (m.(codes := m.codes - {key}), Code(MemoryCode(m, key, c.at)))
    case SaveToken(key, rec, _) => (m.(tokens := m.tokens[key := rec]), Void)
    case GetToken(key) => (m, Token(MemoryToken(m, key, c.at)))
    case RevokeToken(key) => (m.(tokens := m.tokens - {key}), Void)
  }

  class InMemoryOAuthTokenStore {
    var authorizationCodes: map<string, CodeRecord>
    var refreshTokens: map<string, TokenRecord>

    function View(): Memory
      reads this
    {
      Memory(authorizationCodes, refreshTokens)
    }

    constructor ()
      ensures View() == Memory(map[], map[])
    {
      authorizationCodes, refreshTokens := map[], map[];
    }

    method SaveAuthorizationCode(key: string, record: CodeRecord, ttl: int, now: int)
      modifies this
      ensures View() == MemoryStep(old(View()), Call(now, SaveCode(key, record, ttl))).0
    {
      authorizationCodes := authorizationCodes[key := record];
    }

    method ConsumeAuthorizationCode(key: string, now: int) returns (r: Option<CodeRecord>)
      modifies this
      ensures (View(), Code(r)) == MemoryStep(old(View()), Call(now, ConsumeCode(key)))
    {
      r := if key in authorizationCodes then Some(authorizationCodes[key]) else None;
      authorizationCodes := authorizationCodes - {key};
      if r.None? || r.value.expiresAt <= now {
        r := None;
      }
    }

    method SaveRefreshToken(key: string, record: TokenRecord, ttl: int, now: int)
      modifies this
      ensures View() == MemoryStep(old(View()), Call(now, SaveToken(key, record, ttl))).0
    {
      refreshTokens := refreshTokens[key := record];
    }

    method GetRefreshToken(key: string, now: int) returns (r: Option<TokenRecord>)
      ensures (View(), Token(r)) == MemoryStep(View(), Call(now, GetToken(key)))
    {
      r := if key in refreshTokens then Some(refreshTokens[key]) else None;
      if r.None? || r.value.expiresAt <= now {
        r := None;
      }
    }

    method RevokeRefreshToken(key: string, now: int)
      modifies this
      ensures View() == MemoryStep(old(View()), Call(now, RevokeToken(key))).0
    {
      refreshTokens := refreshTokens - {key};
    }
  }

  // ----- the Redis-backed store

  datatype Redis = Redis(codes: Db<CodeRecord>, tokens: Db<TokenRecord>)

  function RedisCode(r: Redis, key: string, now: int): Option<CodeRecord> {
    var raw := Get(r.codes, key, now);
    if raw.Some? && raw.value.expiresAt > now then raw else None
  }

  function RedisToken(r: Redis, key: string, now: int): Option<TokenRecord> {
    var raw := Get(r.tokens, key, now);
    if raw.Some? && raw.value.expiresAt > now then raw else None
  }

  function RedisStep(r: Redis, c: Call): (Redis, Answer) {
    match c.op
    case SaveCode(key, rec, ttl) => (r.(codes := SetEx(r.codes, key, rec, c.at, ttl)), Void)
    case ConsumeCode(key) =>
      (if Get(r.codes, key, c.at).None? then r else r.(codes := Del(r.codes, key)), Code(RedisCode(r, key, c.at)))
    case SaveToken(key, rec, ttl) => (r.(tokens := SetEx(r.tokens, key, rec, c.at, ttl)), Void)
    case GetToken(key) => (r, Token(RedisToken(r, key, c.at)))
    case RevokeToken(key) => (r.(tokens := Del(r.tokens, key)), Void)
  }

  class RedisBackedStore {
    var codes: Db<CodeRecord>
    var tokens: Db<TokenRecord>

    function View(): Redis
      reads this
    {
      Redis(codes, tokens)
    }

    constructor ()
      ensures View() == Redis(map[], map[])
    {
      codes, tokens := map[], map[];
    }

    method SaveAuthorizationCode(key: string, record: CodeRecord, ttl: int, now: int)
      modifies this
      ensures View() == RedisStep(old(View()), Call(now, SaveCode(key, record, ttl))).0
    {
      codes := SetEx(codes, key, record, now, ttl);
    }

    method ConsumeAuthorizationCode(key: string, now: int) returns (r: Option<CodeRecord>)
      modifies this
      ensures (View(), Code(r)) == RedisStep(old(View()), Call(now, ConsumeCode(key)))
    {
      var raw := Get(codes, key, now);
      if raw.None? {
        return None;
      }
      codes := Del(codes, key);
      r := if raw.value.expiresAt > now then raw else None;
    }

    method SaveRefreshToken(key: string, record: TokenRecord, ttl: int, now: int)
      modifies this
      ensures View() == RedisStep(old(View()), Call(now, SaveToken(key, record, ttl))).0
    {
      tokens := SetEx(tokens, key, record, now, ttl);
    }

    method GetRefreshToken(key: string, now: int) returns (r: Option<TokenRecord>)
      ensures (View(), Token(r)) == RedisStep(View(), Call(now, GetToken(key)))
    {
      var raw := Get(tokens, key, now);
      if raw.None? {
        return None;
      }
      r := if raw.value.expiresAt > now then raw else None;
    }

    method RevokeRefreshToken(key: string, now: int)
      modifies this
      ensures View() == RedisStep(old(View()), Call(now, RevokeToken(key))).0
    {
      tokens := Del(tokens, key);
    }
  }

  // ----- the two stores answer alike

  /** No read at `now` or later can tell the stores apart. */
  ghost predicate Agree(m: Memory, r: Redis, now: int) {
    && (forall key, t :: now <= t ==> MemoryCode(m, key, t) == RedisCode(r, key, t))
    && (forall key, t :: now <= t ==> MemoryToken(m, key, t) == RedisToken(r, key, t))
  }

  /** A record that expires no later than its key. */
  predicate WellTimed(c: Call) {
    match c.op
    case SaveCode(_, rec, ttl) => rec.expiresAt <= c.at + ttl * 1000
    case SaveToken(_, rec, ttl) => rec.expiresAt <= c.at + ttl * 1000
    case _ => true
  }

  lemma AgreeStep(m: Memory, r: Redis, now: int, c: Call)
    requires Agree(m, r, now) && now <= c.at && WellTimed(c)
    ensures MemoryStep(m, c).1 == RedisStep(r, c).1
    ensures Agree(MemoryStep(m, c).0, RedisStep(r, c).0, c.at)
  {
    var m', r' := MemoryStep(m, c).0, RedisStep(r, c).0;
    forall key, t | c.at <= t
      ensures MemoryCode(m', key, t) == RedisCode(r', key, t)
    {
      assert MemoryCode(m, key, t) == RedisCode(r, key, t);
    }
    forall key, t | c.at <= t
      ensures MemoryToken(m', key, t) == RedisToken(r', key, t)
    {
      assert MemoryToken(m, key, t) == RedisToken(r, key, t);
    }
  }

  ghost predicate Ordered(calls: seq<Call>, now: int) {
    && (forall i :: 0 <= i < |calls| ==> now <= calls[i].at)
    && (forall i, j :: 0 <= i < j < |calls| ==> calls[i].at <= calls[j].at)
  }

  function MemoryAnswers(m: Memory, calls: seq<Call>): seq<Answer>
    decreases |calls|
  {
    if |calls| == 0 then [] else
      var (m', a) := MemoryStep(m, calls[0]);
      [a] + MemoryAnswers(m', calls[1..])
  }

  function RedisAnswers(r: Redis, calls: seq<Call>): seq<Answer>
    decreases |calls|
  {
    if |calls| == 0 then [] else
      var (r', a) := RedisStep(r, calls[0]);
      [a] + RedisAnswers(r', calls[1..])
  }

  /** Refinement: over any ordered sequence of well-timed calls the answers are the same. */
  lemma {:induction false} StoresAnswerAlike(m: Memory, r: Redis, now: int, calls: seq<Call>)
    requires Agree(m, r, now) && Ordered(calls, now)
    requires forall i :: 0 <= i < |calls| ==> WellTimed(calls[i])
    ensures MemoryAnswers(m, calls) == RedisAnswers(r, calls)
    decreases |calls|
  {
    if |calls| > 0 {
      AgreeStep(m, r, now, calls[0]);
      StoresAnswerAlike(MemoryStep(m, calls[0]).0, RedisStep(r, calls[0]).0, calls[0].at, calls[1..]);
    }
  }

  ghost predicate SameAnswers(save: Call, later: seq<Call>) {
    MemoryAnswers(Memory(map[], map[]), [save] + later) == RedisAnswers(Redis(map[], map[]), [save] + later)
  }

  predicate IsSave(c: Call) { (c.op.SaveCode? || c.op.SaveToken?) && c.op.ttl > 0 }

  /** The read that tells the stores apart: at the moment Redis evicts the key. */
  function Probe(save: Call): Call
    requires IsSave(save)
  {
    Call(save.at + save.op.ttl * 1000, if save.op.SaveCode? then ConsumeCode(save.op.key) else GetToken(save.op.key))
  }

  lemma ProbeAnswers(save: Call)
    requires IsSave(save) && !WellTimed(save)
    ensures Ordered([Probe(save)], save.at) && !SameAnswers(save, [Probe(save)])
  {
    var calls, m, r := [save] + [Probe(save)], Memory(map[], map[]), Redis(map[], map[]);
    assert calls[1..] == [Probe(save)];
    assert MemoryAnswers(m, calls) == [Void] + MemoryAnswers(MemoryStep(m, save).0, [Probe(save)]);
    assert RedisAnswers(r, calls) == [Void] + RedisAnswers(RedisStep(r, save).0, [Probe(save)]);
    assert MemoryAnswers(m, calls)[1] == MemoryStep(MemoryStep(m, save).0, Probe(save)).1;
    assert RedisAnswers(r, calls)[1] == RedisStep(RedisStep(r, save).0, Probe(save)).1;
  }

  /**
   After one save, no ordered sequence of well-timed calls tells the stores apart exactly when
   the saved record expires no later than its key.
   */
  lemma SaveIndistinguishableExactly(save: Call)
    requires IsSave(save)
    ensures WellTimed(save) <==>
            forall later :: Ordered(later, save.at) && (forall i :: 0 <= i < |later| ==> WellTimed(later[i]))
              ==> SameAnswers(save, later)
  {
    if WellTimed(save) {
      forall later | Ordered(later, save.at) && (forall i :: 0 <= i < |later| ==> WellTimed(later[i]))
        ensures SameAnswers(save, later)
      {
        StoresAnswerAlike(Memory(map[], map[]), Redis(map[], map[]), save.at, [save] + later);
      }
    } else {
      ProbeAnswers(save);
    }
  }
}
