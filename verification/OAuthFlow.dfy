/**
 The authorization-code and refresh-token exchanges, run one at a time against a token store.
 Opaque tokens are parameters; a run never draws the same one twice. Time may pass between the
 store calls of one exchange.
 */
module OAuthFlow {
  import opened Wrappers
  import opened Collections
  import opened OAuthStore

  /** What a successful exchange hands to the client. */
  datatype Response = Response(refreshToken: string, subject: string, clientId: string, scope: string)

  function Issue(m: Memory, subject: string, clientId: string, scope: string, minted: string, at: int,
                 ttl: int): (Memory, Response) {
    var record := TokenRecord(subject, clientId, scope, at + ttl * 1000);
    (MemoryStep(m, Call(at, SaveToken(minted, record, ttl))).0, Response(minted, subject, clientId, scope))
  }

  function ExchangeCode(m: Memory, code: string, redirectUri: string, clientId: string, minted: string,
                        at: int, savedAt: int, ttl: int): (Memory, Option<Response>)
  {
    var (m1, answer) := MemoryStep(m, Call(at, ConsumeCode(code)));
    var found := answer.code;
    if found.None? || found.value.clientId != clientId || found.value.redirectUri != redirectUri then (m1, None)
    else
      var rec := found.value;
      var (m2, response) := Issue(m1, rec.subject, rec.clientId, rec.scope, minted, savedAt, ttl);
      (m2, Some(response))
  }

  function ExchangeRefresh(m: Memory, token: string, clientId: string, minted: string,
                           at: int, savedAt: int, ttl: int): (Memory, Option<Response>)
  {
    var found := MemoryStep(m, Call(at, GetToken(token))).1.token;
    if found.None? || found.value.clientId != clientId then (m, None)
    else
      var m1 := MemoryStep(m, Call(at, RevokeToken(token))).0;
      var rec := found.value;
      var (m2, response) := Issue(m1, rec.subject, rec.clientId, rec.scope, minted, savedAt, ttl);
      (m2, Some(response))
  }

  method ExchangeAuthorizationCode(store: InMemoryOAuthTokenStore, code: string, redirectUri: string, clientId: string,
                                   minted: string, at: int, savedAt: int, ttl: int) returns (r: Option<Response>)
    modifies store
    ensures (store.View(), r) == ExchangeCode(old(store.View()), code, redirectUri, clientId, minted, at, savedAt, ttl)
  {
    var record := store.ConsumeAuthorizationCode(code, at);
    if record.None? || record.value.clientId != clientId || record.value.redirectUri != redirectUri {
      return None;
    }
    var rec := record.value;
    var saved := TokenRecord(rec.subject, rec.clientId, rec.scope, savedAt + ttl * 1000);
    store.SaveRefreshToken(minted, saved, ttl, savedAt);
    r := Some(Response(minted, rec.subject, rec.clientId, rec.scope));
  }

  method ExchangeRefreshToken(store: InMemoryOAuthTokenStore, token: string, clientId: string,
                              minted: string, at: int, savedAt: int, ttl: int) returns (r: Option<Response>)
    modifies store
    ensures (store.View(), r) == ExchangeRefresh(old(store.View()), token, clientId, minted, at, savedAt, ttl)
  {
    var record := store.GetRefreshToken(token, at);
    if record.None? || record.value.clientId != clientId {
      return None;
    }
    store.RevokeRefreshToken(token, at);
    var rec := record.value;
    var saved := TokenRecord(rec.subject, rec.clientId, rec.scope, savedAt + ttl * 1000);
    store.SaveRefreshToken(minted, saved, ttl, savedAt);
    r := Some(Response(minted, rec.subject, rec.clientId, rec.scope));
  }

  // ----- runs of the token endpoint

  datatype Event =
    | Authorize(code: string, record: CodeRecord, at: int, ttl: int)
    | ByCode(code: string, redirectUri: string, clientId: string, minted: string, at: int, savedAt: int, ttl: int)
    | ByRefresh(token: string, clientId: string, minted: string, at: int, savedAt: int, ttl: int)

  /**
   The store and what has happened to it: the grant behind each code, the codes tried and the
   ones that succeeded, the code each token descends from, the tokens already exchanged, and
   every response handed out.
   */
  datatype Flow = Flow(
    store: Memory, grants: map<string, CodeRecord>, tried: set<string>, won: seq<string>,
    root: map<string, string>, spent: seq<string>, responses: seq<Response>)

  const EMPTY := Flow(Memory(map[], map[]), map[], {}, [], map[], [], [])

  /** Opaque tokens are never drawn twice. */
  predicate Fresh(f: Flow, e: Event) {
    match e
    case Authorize(code, _, _, _) => code !in f.grants && code !in f.tried
    case ByCode(_, _, _, minted, _, _, _) => minted !in f.root
    case ByRefresh(_, _, minted, _, _, _) => minted !in f.root
  }

  function Apply(f: Flow, e: Event): Flow {
    match e
    case Authorize(code, record, at, ttl) =>
      f.(store := MemoryStep(f.store, Call(at, SaveCode(code, record, ttl))).0, grants := f.grants[code := record])
    case ByCode(code, redirectUri, clientId, minted, at, savedAt, ttl) =>
      var (m, r) := ExchangeCode(f.store, code, redirectUri, clientId, minted, at, savedAt, ttl);
      var f' := f.(store := m, tried := f.tried + {code});
      if r.None? then f'
      else f'.(won := f.won + [code], root := f.root[minted := code], responses := f.responses + [r.value])
    case ByRefresh(token, clientId, minted, at, savedAt, ttl) =>
      var (m, r) := ExchangeRefresh(f.store, token, clientId, minted, at, savedAt, ttl);
      if r.None? || token !in f.root then f.(store := m)
      else f.(store := m, root := f.root[minted := f.root[token]], spent := f.spent + [token],
        responses := f.responses + [r.value])
  }

  ghost predicate IsRun(f: Flow, events: seq<Event>)
    decreases |events|
  {
    |events| == 0 || (Fresh(f, events[0]) && IsRun(Apply(f, events[0]), events[1..]))
  }

  ghost function After(f: Flow, events: seq<Event>): Flow
    decreases |events|
  {
    if |events| == 0 then f else After(Apply(f, events[0]), events[1..])
  }

  // ----- what every run keeps

  /** Subject, client and scope of the grant a response or token goes back to. */
  predicate Carries(f: Flow, token: string, subject: string, clientId: string, scope: string) {
    && token in f.root && f.root[token] in f.grants
    && var g := f.grants[f.root[token]];
       g.subject == subject && g.clientId == clientId && g.scope == scope
  }

  /** Codes: each succeeds at most once, and one attempt of any kind burns it. */
  ghost predicate CodesBurn(f: Flow) {
    && NoDuplicates(f.won)
    && (forall i :: 0 <= i < |f.won| ==> f.won[i] in f.tried)
    && (forall c :: c in f.store.codes ==> c in f.grants && f.store.codes[c] == f.grants[c] && c !in f.tried)
    && (forall c :: c in f.grants && c !in f.tried ==> c in f.store.codes)
    && (forall t :: t in f.root ==> f.root[t] in f.tried)
  }

  /** Tokens: at most one in the store descends from any code, and a spent one never returns. */
  ghost predicate OneTokenPerCode(f: Flow) {
    && (forall t, u ::
          t in f.store.tokens && u in f.store.tokens && t in f.root && u in f.root && f.root[t] == f.root[u] ==> t == u)
    && NoDuplicates(f.spent)
    && (forall i :: 0 <= i < |f.spent| ==> f.spent[i] in f.root && f.spent[i] !in f.store.tokens)
    && (forall t :: t in f.root && t !in f.spent ==> t in f.store.tokens)
  }

  /** Subject, client and scope are those of the grant along the whole rotation chain. */
  ghost predicate GrantConstant(f: Flow) {
    && (forall t :: t in f.store.tokens ==>
          Carries(f, t, f.store.tokens[t].subject, f.store.tokens[t].clientId, f.store.tokens[t].scope))
    && (forall i :: 0 <= i < |f.responses| ==>
          Carries(f, f.responses[i].refreshToken, f.responses[i].subject, f.responses[i].clientId,
            f.responses[i].scope))
  }

  ghost predicate Inv(f: Flow) { CodesBurn(f) && OneTokenPerCode(f) && GrantConstant(f) }

  /** An attempt with a code touches no other code, whatever its outcome. */
  lemma CodeAttempt(f: Flow, e: Event)
    requires e.ByCode?
    ensures var f' := Apply(f, e);
            && f'.store.codes == f.store.codes - {e.code} && f'.tried == f.tried + {e.code} && f'.grants == f.grants
            && ((f'.won == f.won && f'.root == f.root)
                || (e.code in f.store.codes && f'.won == f.won + [e.code] && f'.root == f.root[e.minted := e.code]))
  {
  }

  /** A refresh touches no code; what it mints descends from the same one. */
  lemma RefreshAttempt(f: Flow, e: Event)
    requires e.ByRefresh?
    ensures var f' := Apply(f, e);
            && f'.store.codes == f.store.codes && f'.tried == f.tried && f'.grants == f.grants && f'.won == f.won
            && (f'.root == f.root || (e.token in f.root && f'.root == f.root[e.minted := f.root[e.token]]))
  {
  }

  lemma StepCodes(f: Flow, e: Event)
    requires Inv(f) && Fresh(f, e)
    ensures CodesBurn(Apply(f, e))
  {
    var f' := Apply(f, e);
    if e.ByRefresh? {
      RefreshAttempt(f, e);
    } else if e.ByCode? {
      CodeAttempt(f, e);
    } else {
      assert f'.root == f.root && f'.won == f.won && f'.tried == f.tried;
    }
  }

  ghost predicate TokenOk(f: Flow, t: string)
    requires t in f.store.tokens
  {
    Carries(f, t, f.store.tokens[t].subject, f.store.tokens[t].clientId, f.store.tokens[t].scope)
  }

  /** A successful code exchange adds one token with the grant's own fields, rooted at the code. */
  lemma CodeSuccess(f: Flow, e: Event)
    requires Inv(f) && Fresh(f, e) && e.ByCode? && |Apply(f, e).responses| > |f.responses|
    ensures e.code in f.grants && e.code !in f.tried
    ensures var f', g := Apply(f, e), f.grants[e.code];
            && f'.store.tokens ==
               f.store.tokens[e.minted := TokenRecord(g.subject, g.clientId, g.scope, e.savedAt + e.ttl * 1000)]
            && f'.root == f.root[e.minted := e.code] && f'.spent == f.spent && f'.grants == f.grants
            && f'.responses == f.responses + [Response(e.minted, g.subject, g.clientId, g.scope)]
  {
  }

  /** A successful refresh replaces one token by another with the same fields and root. */
  lemma RefreshSuccess(f: Flow, e: Event)
    requires Inv(f) && Fresh(f, e) && e.ByRefresh? && |Apply(f, e).responses| > |f.responses|
    ensures e.token in f.store.tokens && e.token in f.root
    ensures var f', rec := Apply(f, e), f.store.tokens[e.token];
            && f'.store.tokens == (f.store.tokens - {e.token})[e.minted := rec.(expiresAt := e.savedAt + e.ttl * 1000)]
            && f'.root == f.root[e.minted := f.root[e.token]] && f'.spent == f.spent + [e.token] &&
              f'.grants == f.grants
            && f'.responses == f.responses + [Response(e.minted, rec.subject, rec.clientId, rec.scope)]
  {
    RefreshExchanges(f.store, e.token, e.clientId, e.minted, e.at, e.savedAt, e.ttl);
  }

  lemma RefreshExchanges(m: Memory, token: string, clientId: string, minted: string, at: int, savedAt: int, ttl: int)
    ensures var (m', r) := ExchangeRefresh(m, token, clientId, minted, at, savedAt, ttl);
            r.Some? ==>
              && token in m.tokens
              && var rec := m.tokens[token];
                 && m'.tokens == (m.tokens - {token})[minted := rec.(expiresAt := savedAt + ttl * 1000)]
                 && r.value == Response(minted, rec.subject, rec.clientId, rec.scope)
  {
  }

  /** Anything else touches no token. */
  lemma OtherwiseNothingIssued(f: Flow, e: Event)
    requires Inv(f) && Fresh(f, e) && |Apply(f, e).responses| <= |f.responses|
    ensures var f' := Apply(f, e);
            && f'.store.tokens == f.store.tokens && f'.root == f.root && f'.spent == f.spent &&
              f'.responses == f.responses
            && forall c :: c in f.grants ==> c in f'.grants && f'.grants[c] == f.grants[c]
  {
    if e.ByRefresh? && e.token in f.store.tokens {
      assert TokenOk(f, e.token);
    }
  }

  lemma StepTokens(f: Flow, e: Event)
    requires Inv(f) && Fresh(f, e)
    ensures OneTokenPerCode(Apply(f, e))
  {
    if |Apply(f, e).responses| <= |f.responses| {
      OtherwiseNothingIssued(f, e);
    } else if e.ByCode? {
      CodeSuccess(f, e);
    } else {
      RefreshSuccess(f, e);
    }
  }

  lemma StepGrants(f: Flow, e: Event)
    requires Inv(f) && Fresh(f, e)
    ensures GrantConstant(Apply(f, e))
  {
    assert forall t :: t in f.store.tokens ==> TokenOk(f, t);
    if |Apply(f, e).responses| <= |f.responses| {
      OtherwiseNothingIssued(f, e);
    } else if e.ByCode? {
      CodeSuccess(f, e);
    } else {
      RefreshSuccess(f, e);
    }
  }

  lemma StepInv(f: Flow, e: Event)
    requires Inv(f) && Fresh(f, e)
    ensures Inv(Apply(f, e))
  {
    StepCodes(f, e);
    StepTokens(f, e);
    StepGrants(f, e);
  }

  /** Every run of non-overlapping exchanges keeps all three properties. */
  lemma {:induction false} RunKeepsGrants(f: Flow, events: seq<Event>)
    requires Inv(f) && IsRun(f, events)
    ensures Inv(After(f, events))
    decreases |events|
  {
    if |events| > 0 {
      StepInv(f, events[0]);
      RunKeepsGrants(Apply(f, events[0]), events[1..]);
    }
  }

  /** From the empty store: no code wins twice, no two stored tokens share a code, no token is exchanged twice. */
  lemma {:induction false} ExchangesOnce(events: seq<Event>)
    requires IsRun(EMPTY, events)
    ensures var f := After(EMPTY, events);
            NoDuplicates(f.won) && NoDuplicates(f.spent) && OneTokenPerCode(f) && GrantConstant(f)
  {
    RunKeepsGrants(EMPTY, events);
  }

  /** Once a code has been tried, successfully or not, every later attempt in every continuation fails. */
  lemma {:induction false} TriedCodeIsBurnt(f: Flow, events: seq<Event>, e: Event)
    requires Inv(f) && IsRun(f, events) && e.ByCode? && e.code in f.tried
    ensures var g := After(f, events);
            ExchangeCode(g.store, e.code, e.redirectUri, e.clientId, e.minted, e.at, e.savedAt, e.ttl).1 == None
    decreases |events|
  {
    if |events| > 0 {
      StepInv(f, events[0]);
      TriedCodeIsBurnt(Apply(f, events[0]), events[1..], e);
    }
  }

  /**
   An exchange succeeds exactly when the code is granted, untried, unexpired and presented by its
   client and redirect.
   */
  lemma CodeExchangeSucceedsExactly(f: Flow, e: Event)
    requires Inv(f) && e.ByCode?
    ensures ExchangeCode(f.store, e.code, e.redirectUri, e.clientId, e.minted, e.at, e.savedAt, e.ttl).1.Some? <==>
            && e.code in f.grants && e.code !in f.tried && e.at < f.grants[e.code].expiresAt
            && f.grants[e.code].clientId == e.clientId && f.grants[e.code].redirectUri == e.redirectUri
  {
  }

  /** A refresh can succeed only for a token that descends from a code and has not been exchanged. */
  lemma RefreshNeedsUnspentToken(f: Flow, e: Event)
    requires Inv(f) && e.ByRefresh?
    ensures ExchangeRefresh(f.store, e.token, e.clientId, e.minted, e.at, e.savedAt, e.ttl).1.Some? <==>
            && e.token in f.root && e.token !in f.spent && e.at < f.store.tokens[e.token].expiresAt
            && f.grants[f.root[e.token]].clientId == e.clientId
  {
    if e.token in f.store.tokens {
      assert Carries(f, e.token, f.store.tokens[e.token].subject, f.store.tokens[e.token].clientId,
        f.store.tokens[e.token].scope);
    }
  }

  // ----- the same endpoint over the Redis-backed store

  function RedisExchangeCode(r: Redis, code: string, redirectUri: string, clientId: string, minted: string,
                             at: int, savedAt: int, ttl: int): (Redis, Option<Response>)
  {
    var (r1, answer) := RedisStep(r, Call(at, ConsumeCode(code)));
    var found := answer.code;
    if found.None? || found.value.clientId != clientId || found.value.redirectUri != redirectUri then (r1, None)
    else RedisIssue(r1, found.value.subject, found.value.clientId, found.value.scope, minted, savedAt, ttl)
  }

  function RedisExchangeRefresh(r: Redis, token: string, clientId: string, minted: string,
                                at: int, savedAt: int, ttl: int): (Redis, Option<Response>)
  {
    var found := RedisStep(r, Call(at, GetToken(token))).1.token;
    if found.None? || found.value.clientId != clientId then (r, None)
    else
      var r1 := RedisStep(r, Call(at, RevokeToken(token))).0;
      RedisIssue(r1, found.value.subject, found.value.clientId, found.value.scope, minted, savedAt, ttl)
  }

  function RedisIssue(r: Redis, subject: string, clientId: string, scope: string, minted: string, at: int,
                      ttl: int): (Redis, Option<Response>) {
    var record := TokenRecord(subject, clientId, scope, at + ttl * 1000);
    (RedisStep(r, Call(at, SaveToken(minted, record, ttl))).0, Some(Response(minted, subject, clientId, scope)))
  }

  function MemoryServe(m: Memory, e: Event): (Memory, Option<Response>) {
    match e
    case Authorize(code, record, at, ttl) => (MemoryStep(m, Call(at, SaveCode(code, record, ttl))).0, None)
    case ByCode(code, uri, clientId, minted, at, savedAt, ttl) =>
      ExchangeCode(m, code, uri, clientId, minted, at, savedAt, ttl)
    case ByRefresh(token, clientId, minted, at, savedAt, ttl) =>
      ExchangeRefresh(m, token, clientId, minted, at, savedAt, ttl)
  }

  function RedisServe(r: Redis, e: Event): (Redis, Option<Response>) {
    match e
    case Authorize(code, record, at, ttl) => (RedisStep(r, Call(at, SaveCode(code, record, ttl))).0, None)
    case ByCode(code, uri, clientId, minted, at, savedAt, ttl) =>
      RedisExchangeCode(r, code, uri, clientId, minted, at, savedAt, ttl)
    case ByRefresh(token, clientId, minted, at, savedAt, ttl) =>
      RedisExchangeRefresh(r, token, clientId, minted, at, savedAt, ttl)
  }

  /** When the event ends: an exchange saves its token after it has read the store. */
  function EndOf(e: Event): int { if e.Authorize? then e.at else e.savedAt }

  /** Events follow one another in time, and each code is saved with the lifetime it is stored for. */
  ghost predicate Timely(now: int, events: seq<Event>)
    decreases |events|
  {
    |events| == 0 ||
    (&& now <= events[0].at <= EndOf(events[0])
     && (events[0].Authorize? ==> events[0].record.expiresAt <= events[0].at + events[0].ttl * 1000)
     && Timely(EndOf(events[0]), events[1..]))
  }

  function MemoryResponses(m: Memory, events: seq<Event>): seq<Option<Response>>
    decreases |events|
  {
    if |events| == 0 then [] else
      var (m', a) := MemoryServe(m, events[0]);
      [a] + MemoryResponses(m', events[1..])
  }

  function RedisResponses(r: Redis, events: seq<Event>): seq<Option<Response>>
    decreases |events|
  {
    if |events| == 0 then [] else
      var (r', a) := RedisServe(r, events[0]);
      [a] + RedisResponses(r', events[1..])
  }

  lemma IssuesAlike(m: Memory, r: Redis, now: int, subject: string, clientId: string, scope: string, minted: string,
                    at: int, ttl: int)
    requires Agree(m, r, now) && now <= at
    ensures var (m', a) := Issue(m, subject, clientId, scope, minted, at, ttl);
            var (r', b) := RedisIssue(r, subject, clientId, scope, minted, at, ttl);
            b == Some(a) && Agree(m', r', at)
  {
    AgreeStep(m, r, now, Call(at, SaveToken(minted, TokenRecord(subject, clientId, scope, at + ttl * 1000), ttl)));
  }

  lemma {:induction false} ServesAlike(m: Memory, r: Redis, now: int, e: Event)
    requires Agree(m, r, now) && Timely(now, [e])
    ensures MemoryServe(m, e).1 == RedisServe(r, e).1
    ensures Agree(MemoryServe(m, e).0, RedisServe(r, e).0, EndOf(e))
  {
    match e
    case Authorize(code, record, at, ttl) =>
      AgreeStep(m, r, now, Call(at, SaveCode(code, record, ttl)));
    case ByCode(code, _, clientId, minted, at, savedAt, ttl) =>
      var c := Call(at, ConsumeCode(code));
      AgreeStep(m, r, now, c);
      var found := MemoryCode(m, code, at);
      if found.Some? {
        IssuesAlike(MemoryStep(m, c).0, RedisStep(r, c).0, at, found.value.subject, found.value.clientId,
          found.value.scope, minted, savedAt, ttl);
      }
    case ByRefresh(token, clientId, minted, at, savedAt, ttl) =>
      var c := Call(at, RevokeToken(token));
      AgreeStep(m, r, now, Call(at, GetToken(token)));
      AgreeStep(m, r, now, c);
      var found := MemoryToken(m, token, at);
      if found.Some? {
        IssuesAlike(MemoryStep(m, c).0, RedisStep(r, c).0, at, found.value.subject, found.value.clientId,
          found.value.scope, minted, savedAt, ttl);
      }
  }

  /** A client of the token endpoint cannot tell which store is behind it. */
  lemma {:induction false} EndpointAnswersAlike(m: Memory, r: Redis, now: int, events: seq<Event>)
    requires Agree(m, r, now) && Timely(now, events)
    ensures MemoryResponses(m, events) == RedisResponses(r, events)
    decreases |events|
  {
    if |events| > 0 {
      assert Timely(EndOf(events[0]), [events[0]][1..]);
      ServesAlike(m, r, now, events[0]);
      EndpointAnswersAlike(MemoryServe(m, events[0]).0, RedisServe(r, events[0]).0, EndOf(events[0]), events[1..]);
    }
  }

  // ----- the guarantees over the Redis-backed store

  ghost function RedisAfter(r: Redis, events: seq<Event>): Redis
    decreases |events|
  {
    if |events| == 0 then r else RedisAfter(RedisServe(r, events[0]).0, events[1..])
  }

  ghost function EndTime(now: int, events: seq<Event>): int
    decreases |events|
  {
    if |events| == 0 then now else EndTime(EndOf(events[0]), events[1..])
  }

  lemma FlowServes(f: Flow, e: Event)
    ensures Apply(f, e).store == MemoryServe(f.store, e).0
  {
  }

  /** After any timely run no later read tells the stores apart. */
  lemma {:induction false} StoresStayAlike(f: Flow, r: Redis, now: int, events: seq<Event>)
    requires Agree(f.store, r, now) && Timely(now, events)
    ensures Agree(After(f, events).store, RedisAfter(r, events), EndTime(now, events))
    decreases |events|
  {
    if |events| > 0 {
      assert Timely(EndOf(events[0]), [events[0]][1..]);
      ServesAlike(f.store, r, now, events[0]);
      FlowServes(f, events[0]);
      StoresStayAlike(Apply(f, events[0]), RedisServe(r, events[0]).0, EndOf(events[0]), events[1..]);
    }
  }

  /** The i-th response is given by the state the first i events lead to, from which the rest is a run. */
  lemma {:induction false} ResponseAt(f: Flow, events: seq<Event>, i: nat)
    requires Inv(f) && IsRun(f, events) && i < |events|
    ensures var g := After(f, events[..i]);
            && Inv(g) && Fresh(g, events[i]) && IsRun(Apply(g, events[i]), events[i + 1..])
            && After(Apply(g, events[i]), events[i + 1..]) == After(f, events)
            && |MemoryResponses(f.store, events)| == |events|
            && MemoryResponses(f.store, events)[i] == MemoryServe(g.store, events[i]).1
    decreases i
  {
    FlowServes(f, events[0]);
    ResponseCount(f.store, events);
    if i == 0 {
      assert events[..0] == [];
    } else {
      StepInv(f, events[0]);
      var rest := events[1..];
      ResponseAt(Apply(f, events[0]), rest, i - 1);
      assert events[..i][1..] == rest[..i - 1] && rest[i..] == events[i + 1..] && rest[i - 1] == events[i];
      assert MemoryResponses(f.store, events)[i] == MemoryResponses(Apply(f, events[0]).store, rest)[i - 1];
    }
  }

  lemma {:induction false} ResponseCount(m: Memory, events: seq<Event>)
    ensures |MemoryResponses(m, events)| == |events|
    decreases |events|
  {
    if |events| > 0 { ResponseCount(MemoryServe(m, events[0]).0, events[1..]); }
  }

  predicate Used(f: Flow, e: Event) { (e.ByCode? && e.code in f.tried) || (e.ByRefresh? && e.token in f.spent) }

  /** Once a code has been tried or a token exchanged, every later use of it in the run is refused. */
  lemma {:induction false} UsedIsRefused(f: Flow, events: seq<Event>, j: nat)
    requires Inv(f) && IsRun(f, events) && j < |events|
    requires Used(f, events[j])
    ensures |MemoryResponses(f.store, events)| == |events| && MemoryResponses(f.store, events)[j] == None
    decreases j
  {
    ResponseCount(f.store, events);
    if j == 0 {
      RefusedNow(f, events[0]);
    } else {
      var e, rest := events[0], events[1..];
      assert Inv(Apply(f, e)) by { StepInv(f, e); }
      assert Used(Apply(f, e), rest[j - 1]) by { UsedStays(f, e, rest[j - 1]); }
      UsedIsRefused(Apply(f, e), rest, j - 1);
      FlowServes(f, e);
      assert MemoryResponses(f.store, events)[j] == MemoryResponses(Apply(f, e).store, rest)[j - 1];
    }
  }

  lemma RefusedNow(f: Flow, e: Event)
    requires Inv(f) && Used(f, e)
    ensures MemoryServe(f.store, e).1 == None
  {
    if e.ByRefresh? {
      RefreshNeedsUnspentToken(f, e);
    } else {
      CodeExchangeSucceedsExactly(f, e);
    }
  }

  lemma UsedStays(f: Flow, e: Event, later: Event)
    requires Used(f, later)
    ensures Used(Apply(f, e), later)
  {
  }

  /** A success is recorded, with its code tried or its token spent. */
  lemma SuccessRecorded(f: Flow, e: Event)
    requires Inv(f) && Fresh(f, e) && !e.Authorize?
    ensures e.ByCode? ==> e.code in Apply(f, e).tried
    ensures MemoryServe(f.store, e).1.Some? ==> MemoryServe(f.store, e).1.value in Apply(f, e).responses
    ensures MemoryServe(f.store, e).1.Some? && e.ByRefresh? ==> e.token in Apply(f, e).spent
  {
    if e.ByRefresh? && e.token in f.store.tokens {
      assert TokenOk(f, e.token);
    }
  }

  lemma {:induction false} ResponsesKept(f: Flow, events: seq<Event>, x: Response)
    requires x in f.responses
    ensures x in After(f, events).responses
    decreases |events|
  {
    if |events| > 0 {
      assert f.responses <= Apply(f, events[0]).responses;
      ResponsesKept(Apply(f, events[0]), events[1..], x);
    }
  }

  const EMPTY_REDIS := Redis(map[], map[])

  /** Event `j` uses a code that event `i` tried, or a token that event `i` exchanged. */
  predicate SecondUse(events: seq<Event>, rs: seq<Option<Response>>, i: nat, j: nat)
    requires i < j < |events| == |rs|
  {
    || (events[i].ByCode? && events[j].ByCode? && events[i].code == events[j].code)
    || (events[i].ByRefresh? && events[j].ByRefresh? && events[i].token == events[j].token && rs[i].Some?)
  }

  lemma {:induction false} SecondUseRefused(events: seq<Event>, rs: seq<Option<Response>>, i: nat, j: nat)
    requires IsRun(EMPTY, events) && i < j < |events| == |rs| && rs == MemoryResponses(EMPTY.store, events)
    requires SecondUse(events, rs, i, j)
    ensures rs[j] == None
  {
    ResponseAt(EMPTY, events, i);
    var g, e := After(EMPTY, events[..i]), events[i];
    assert Used(Apply(g, e), events[j]) by { SuccessRecorded(g, e); }
    assert Inv(Apply(g, e)) by { StepInv(g, e); }
    UsedIsRefused(Apply(g, e), events[i + 1..], j - i - 1);
    ResponseTail(EMPTY, events, i, j);
  }

  lemma {:induction false} ResponseTail(f: Flow, events: seq<Event>, i: nat, j: nat)
    requires i < j < |events|
    ensures |MemoryResponses(f.store, events)| == |events|
    ensures |MemoryResponses(Apply(After(f, events[..i]), events[i]).store, events[i + 1..])| == |events| - i - 1
    ensures MemoryResponses(f.store, events)[j] ==
            MemoryResponses(Apply(After(f, events[..i]), events[i]).store, events[i + 1..])[j - i - 1]
    decreases i
  {
    ResponseCount(f.store, events);
    ResponseCount(Apply(After(f, events[..i]), events[i]).store, events[i + 1..]);
    FlowServes(f, events[0]);
    if i == 0 {
      assert events[..0] == [];
    } else {
      var rest := events[1..];
      ResponseTail(Apply(f, events[0]), rest, i - 1, j - 1);
      assert events[..i][1..] == rest[..i - 1] && rest[i..] == events[i + 1..];
      assert MemoryResponses(f.store, events)[j] == MemoryResponses(Apply(f, events[0]).store, rest)[j - 1];
    }
  }

  /** A response carries the subject, client and scope of the authorization its token descends from. */
  lemma {:induction false} ResponseCarriesGrant(events: seq<Event>, i: nat)
    requires IsRun(EMPTY, events) && i < |events|
    ensures var rs := MemoryResponses(EMPTY.store, events);
            && |rs| == |events|
            && (rs[i].Some? ==>
                  var x := rs[i].value;
                  Carries(After(EMPTY, events), x.refreshToken, x.subject, x.clientId, x.scope))
  {
    ResponseAt(EMPTY, events, i);
    RunKeepsGrants(EMPTY, events);
    var g, rs := After(EMPTY, events[..i]), MemoryResponses(EMPTY.store, events);
    if rs[i].Some? {
      SuccessRecorded(g, events[i]);
      ResponsesKept(Apply(g, events[i]), events[i + 1..], rs[i].value);
    }
  }

  /** Of the tokens that descend from one code at most one can be read, from `now` on. */
  ghost predicate OneReadablePerCode(f: Flow, r: Redis, now: int) {
    forall t, u, at ::
      (now <= at && RedisToken(r, t, at).Some? && RedisToken(r, u, at).Some? && t in f.root && u in f.root &&
        f.root[t] == f.root[u])
      ==> t == u
  }

  lemma {:induction false} RedisTokensApart(now: int, events: seq<Event>)
    requires IsRun(EMPTY, events) && Timely(now, events)
    ensures OneReadablePerCode(After(EMPTY, events), RedisAfter(EMPTY_REDIS, events), EndTime(now, events))
  {
    var f, r := After(EMPTY, events), RedisAfter(EMPTY_REDIS, events);
    RunKeepsGrants(EMPTY, events);
    StoresStayAlike(EMPTY, EMPTY_REDIS, now, events);
    forall t, u, at |
      EndTime(now, events) <= at && RedisToken(r, t, at).Some? && RedisToken(r, u, at).Some? && t in f.root &&
        u in f.root && f.root[t] == f.root[u]
      ensures t == u
    {
      assert MemoryToken(f.store, t, at).Some? && MemoryToken(f.store, u, at).Some?;
    }
  }

  /**
   Over every timely run against the store the service uses: a second use of a code, or of an
   exchanged token, is refused; every response carries the subject, client and scope of the
   authorization its token descends from; and of the tokens that descend from one code at most
   one can be read at any later instant.
   */
  lemma {:induction false} RedisExchangesOnce(now: int, events: seq<Event>)
    requires IsRun(EMPTY, events) && Timely(now, events)
    ensures var rs := RedisResponses(EMPTY_REDIS, events);
            && |rs| == |events|
            && (forall i, j :: 0 <= i < j < |events| && SecondUse(events, rs, i, j) ==> rs[j] == None)
            && (forall i :: 0 <= i < |events| && rs[i].Some? ==>
                  Carries(After(EMPTY, events), rs[i].value.refreshToken, rs[i].value.subject, rs[i].value.clientId,
                    rs[i].value.scope))
    ensures OneReadablePerCode(After(EMPTY, events), RedisAfter(EMPTY_REDIS, events), EndTime(now, events))
  {
    var rs := RedisResponses(EMPTY_REDIS, events);
    EndpointAnswersAlike(EMPTY.store, EMPTY_REDIS, now, events);
    ResponseCount(EMPTY.store, events);
    forall i, j | 0 <= i < j < |events| && SecondUse(events, rs, i, j)
      ensures rs[j] == None
    {
      SecondUseRefused(events, rs, i, j);
    }
    forall i | 0 <= i < |events| && rs[i].Some?
      ensures Carries(After(EMPTY, events), rs[i].value.refreshToken, rs[i].value.subject, rs[i].value.clientId,
          rs[i].value.scope)
    {
      ResponseCarriesGrant(events, i);
    }
    RedisTokensApart(now, events);
  }
}
