/**
 JWT signing keys: the keystore built from the environment, refresh tokens with their key id,
 and key rotation with its seven-day grace period. Signatures are modelled by the secret that
 made them; times are milliseconds, token claims are whole seconds.
 */
module JwtKeys {
  import opened Wrappers

  const GRACE_MS := 7 * 24 * 60 * 60 * 1000
  const REFRESH_SECONDS := 7 * 24 * 60 * 60

  /** JWT_PREVIOUS_KEY_ISSUED_AT: absent, not a number, or epoch seconds. */
  datatype IssuedAt = Unset | Unparsable | Seconds(s: int)

  datatype Env = Env(secret: string, keyId: Option<string>, prevSecret: string, prevKeyId: string,
    prevIssuedAt: IssuedAt)

  datatype KeyEntry = KeyEntry(keyId: string, secret: string, expiresAt: Option<int>)

  /** When the previous key stops being accepted; `None` when no such instant can be computed. */
  function GraceEnd(env: Env, now: int): Option<int> {
    match env.prevIssuedAt
    case Unset => Some(now + GRACE_MS)
    case Unparsable => None
    case Seconds(s) => Some(s * 1000 + GRACE_MS)
  }

  /** JWT_KEY_ID, or "v1" without one. */
  function ActiveKeyId(env: Env): string { if env.keyId.Some? then env.keyId.value else "v1" }

  /** A previous key is configured and its grace period is not over. */
  predicate PreviousAccepted(env: Env, now: int) {
    env.prevSecret != "" && env.prevKeyId != "" && GraceEnd(env, now).Some? && now < GraceEnd(env, now).value
  }

  /** The active key, then the previous one while its grace period lasts. An empty secret counts as none. */
  function BuildKeyStore(env: Env, now: int): (r: Result<seq<KeyEntry>>)
    ensures r.Ok? <==> env.secret != ""
    ensures r.Ok? ==> 1 <= |r.value| <= 2 && r.value[0] == KeyEntry(ActiveKeyId(env), env.secret, None)
    ensures r.Ok? ==> (|r.value| == 2 <==> PreviousAccepted(env, now))
    ensures r.Ok? && |r.value| == 2 ==> r.value[1] == KeyEntry(env.prevKeyId, env.prevSecret, GraceEnd(env, now))
  {
    if env.secret == "" then Thrown("JWT_SECRET is not defined in environment variables")
    else
      var active := KeyEntry(ActiveKeyId(env), env.secret, None);
      if PreviousAccepted(env, now) then Ok([active, KeyEntry(env.prevKeyId, env.prevSecret, GraceEnd(env, now))])
      else Ok([active])
  }

  /**
   A previous key that is in the store stays there for good exactly when its superseding second is
   not configured: the grace period is then counted from the present.
   */
  lemma NeverEvictedExactly(env: Env, now: int)
    requires env.secret != "" && env.prevSecret != "" && env.prevKeyId != ""
    ensures (forall t :: now <= t ==> |BuildKeyStore(env, t).value| == 2) <==> env.prevIssuedAt.Unset?
  {
    if env.prevIssuedAt.Seconds? {
      var end := env.prevIssuedAt.s * 1000 + GRACE_MS;
      var t := if now <= end then end else now;
      assert |BuildKeyStore(env, t).value| == 1;
    }
    if env.prevIssuedAt.Unparsable? {
      assert |BuildKeyStore(env, now).value| == 1;
    }
  }

  /** Otherwise it is gone once its grace period is over. */
  lemma EvictedAfterGrace(env: Env, now: int)
    requires env.secret != "" && env.prevSecret != "" && env.prevKeyId != "" && env.prevIssuedAt.Seconds?
    ensures |BuildKeyStore(env, now).value| == 2 <==> now < env.prevIssuedAt.s * 1000 + GRACE_MS
  {
  }

  function FindIn(store: seq<KeyEntry>, keyId: string): Option<KeyEntry> {
    if |store| == 0 then None else if store[0].keyId == keyId then Some(store[0]) else FindIn(store[1..], keyId)
  }

  function FindKeyById(env: Env, keyId: string, now: int): Result<Option<KeyEntry>> {
    match BuildKeyStore(env, now)
    case Ok(store) => Ok(FindIn(store, keyId))
    case Thrown(m) => Thrown(m)
  }

  datatype Token = Token(kid: string, signedWith: string, iat: int, exp: int)

  function GenerateRefreshToken(env: Env, now: int): Result<Token> {
    match BuildKeyStore(env, now)
    case Ok(store) => Ok(Token(store[0].keyId, store[0].secret, now / 1000, now / 1000 + REFRESH_SECONDS))
    case Thrown(m) => Thrown(m)
  }

  /** The library's check: signature first, then expiry in whole seconds. */
  function CheckJwt(token: Token, secret: string, now: int): Result<Token> {
    if token.signedWith != secret then Thrown("Invalid refresh token")
    else if now / 1000 >= token.exp then Thrown("Refresh token has expired")
    else Ok(token)
  }

  /** Key selection and expiry of verifyRefreshToken; a token without a key id falls back to the active secret. */
  function VerifyRefreshToken(env: Env, token: Token, now: int): Result<Token> {
    match BuildKeyStore(env, now)
    case Thrown(m) => Thrown(m)
    case Ok(store) =>
      if token.kid == "" then CheckJwt(token, store[0].secret, now)
      else
        match FindIn(store, token.kid)
        case None => Thrown("Invalid refresh token: unknown key id")
        case Some(entry) => CheckJwt(token, entry.secret, now)
  }

  /** Signed with the key its id names: the active one, also when it has no id, or an accepted previous one. */
  predicate SignedWithHeldKey(env: Env, token: Token, now: int) {
    if token.kid == "" || token.kid == ActiveKeyId(env) then token.signedWith == env.secret
    else PreviousAccepted(env, now) && token.kid == env.prevKeyId && token.signedWith == env.prevSecret
  }

  /**
   A refresh token is accepted exactly when a secret is set, the token is signed with the held key
   its id names, and it has not expired; an expired one with a right signature is called expired.
   */
  lemma {:induction false} AcceptedExactly(env: Env, token: Token, now: int)
    ensures var r := VerifyRefreshToken(env, token, now);
            && (r.Ok? <==> env.secret != "" && SignedWithHeldKey(env, token, now) && now / 1000 < token.exp)
            && (r.Ok? ==> r.value == token)
            && (env.secret != "" && SignedWithHeldKey(env, token, now) && now / 1000 >= token.exp ==>
                  r == Thrown("Refresh token has expired"))
  {
    if env.secret != "" {
      var store := BuildKeyStore(env, now).value;
      StoreLookup(store, token.kid);
    }
  }

  lemma {:induction false} StoreLookup(store: seq<KeyEntry>, keyId: string)
    requires 1 <= |store| <= 2
    ensures FindIn(store, keyId) ==
            if store[0].keyId == keyId then Some(store[0])
            else if |store| == 2 && store[1].keyId == keyId then Some(store[1]) else None
  {
    var rest := store[1..];
    assert FindIn(store, keyId) == if store[0].keyId == keyId then Some(store[0]) else FindIn(rest, keyId);
    if |store| == 2 {
      assert rest[1..] == [];
      assert FindIn(rest, keyId) == if rest[0].keyId == keyId then Some(rest[0]) else FindIn([], keyId);
    }
  }

  // ----- runs of rotations

  /** The instant a key becomes active. */
  datatype Rotation = Rotation(at: int, keyId: string, secret: string)

  /** Keys are promoted one after the other, each with an id never used before. */
  ghost predicate ValidRun(run: seq<Rotation>) {
    && |run| > 0
    && (forall i :: 0 <= i < |run| ==> run[i].keyId != "" && run[i].secret != "")
    && (forall i, j :: 0 <= i < j < |run| ==> run[i].at < run[j].at && run[i].keyId != run[j].keyId)
  }

  /** The key active at `now`. */
  function ActiveIndex(run: seq<Rotation>, now: int): (i: nat)
    requires |run| > 0 && run[0].at <= now
    ensures i < |run| && run[i].at <= now
  {
    if run[|run| - 1].at <= now then |run| - 1 else ActiveIndex(run[..|run| - 1], now)
  }

  /** The environment a rotation leaves behind: the previous key with its superseding second. */
  function EnvAt(run: seq<Rotation>, now: int): Env
    requires |run| > 0 && run[0].at <= now
  {
    var i := ActiveIndex(run, now);
    if i == 0 then Env(run[0].secret, Some(run[0].keyId), "", "", Unset)
    else Env(run[i].secret, Some(run[i].keyId), run[i - 1].secret, run[i - 1].keyId, Seconds(run[i].at / 1000))
  }

  lemma {:induction false} ActiveIndexIs(run: seq<Rotation>, now: int, k: nat)
    requires ValidRun(run) && k < |run| && run[k].at <= now && (k + 1 < |run| ==> now < run[k + 1].at)
    ensures run[0].at <= now && ActiveIndex(run, now) == k
    decreases |run|
  {
    if k > 0 {
      assert run[0].at < run[k].at;
    }
    if k + 1 < |run| {
      var shorter := run[..|run| - 1];
      assert now < run[|run| - 1].at by {
        if k + 1 < |run| - 1 { assert run[k + 1].at < run[|run| - 1].at; }
      }
      ActiveIndexIs(shorter, now, k);
    }
  }

  lemma {:induction false} NextNotYetActive(run: seq<Rotation>, now: int)
    requires ValidRun(run) && run[0].at <= now
    ensures var i := ActiveIndex(run, now); i + 1 < |run| ==> now < run[i + 1].at
    decreases |run|
  {
    if run[|run| - 1].at > now {
      var shorter := run[..|run| - 1];
      NextNotYetActive(shorter, now);
      var i := ActiveIndex(shorter, now);
      assert i + 1 < |shorter| ==> shorter[i + 1] == run[i + 1];
    }
  }

  /** The last token of key `j` has expired, in whole seconds, when key `j + 2` becomes active. */
  predicate GapOk(run: seq<Rotation>, j: nat) {
    j + 2 < |run| ==> run[j + 2].at / 1000 >= (run[j + 1].at - 1) / 1000 + REFRESH_SECONDS
  }

  /** Between one rotation and the one after it there are seven days, in the seconds tokens are counted in. */
  ghost predicate SevenDaysApart(run: seq<Rotation>) {
    forall j: nat :: GapOk(run, j)
  }

  /** Every refresh token issued during the run verifies at every instant before it expires. */
  ghost predicate TokensVerifyUntilExpiry(run: seq<Rotation>)
    requires |run| > 0
  {
    forall issued, now :: run[0].at <= issued <= now && now / 1000 < issued / 1000 + REFRESH_SECONDS ==>
      VerifiesAt(run, issued, now)
  }

  ghost predicate VerifiesAt(run: seq<Rotation>, issued: int, now: int)
    requires |run| > 0 && run[0].at <= issued && run[0].at <= now
  {
    var token := GenerateRefreshToken(EnvAt(run, issued), issued);
    token.Ok? && VerifyRefreshToken(EnvAt(run, now), token.value, now) == token
  }

  /** The token names the active key and is signed with it. */
  lemma {:induction false} IssuedToken(run: seq<Rotation>, issued: int)
    requires ValidRun(run) && run[0].at <= issued
    ensures var k := run[ActiveIndex(run, issued)];
            GenerateRefreshToken(EnvAt(run, issued), issued) ==
            Ok(Token(k.keyId, k.secret, issued / 1000, issued / 1000 + REFRESH_SECONDS))
  {
  }

  /** Which keys are in the store at `now`: the active one, and its predecessor through its grace period. */
  lemma {:induction false} StoreHolds(run: seq<Rotation>, now: int, j: nat)
    requires ValidRun(run) && run[0].at <= now && j < |run|
    ensures var i := ActiveIndex(run, now);
            var found := FindKeyById(EnvAt(run, now), run[j].keyId, now);
            && found.Ok?
            && (found.value.Some? <==> j == i || (j + 1 == i && now / 1000 < run[i].at / 1000 + REFRESH_SECONDS))
            && (found.value.Some? ==> found.value.value.secret == run[j].secret)
  {
    var i := ActiveIndex(run, now);
    var env := EnvAt(run, now);
    var store := BuildKeyStore(env, now).value;
    assert i > 0 ==> (now < run[i].at / 1000 * 1000 + GRACE_MS <==> now / 1000 < run[i].at / 1000 + REFRESH_SECONDS);
    assert FindIn(store, run[j].keyId) ==
           if store[0].keyId == run[j].keyId then Some(store[0]) else FindIn(store[1..], run[j].keyId);
    if |store| == 2 {
      assert store[1..] == [store[1]];
      assert FindIn([store[1]], run[j].keyId) == if store[1].keyId == run[j].keyId then Some(store[1]) else None;
    } else {
      assert store[1..] == [];
    }
  }

  /** A token of key `j` verifies before it expires exactly while key `j` is in the store. */
  lemma {:induction false} VerifiesWhileKeyHeld(run: seq<Rotation>, issued: int, now: int)
    requires ValidRun(run) && run[0].at <= issued <= now && now / 1000 < issued / 1000 + REFRESH_SECONDS
    ensures var j, i := ActiveIndex(run, issued), ActiveIndex(run, now);
            VerifiesAt(run, issued, now) <==> j == i || (j + 1 == i && now / 1000 < run[i].at / 1000 + REFRESH_SECONDS)
  {
    IssuedToken(run, issued);
    StoreHolds(run, now, ActiveIndex(run, issued));
  }

  lemma {:induction false} IndexMonotone(run: seq<Rotation>, a: int, b: int)
    requires ValidRun(run) && run[0].at <= a <= b
    ensures ActiveIndex(run, a) <= ActiveIndex(run, b)
  {
    NextNotYetActive(run, b);
  }

  lemma ApartSuffices(run: seq<Rotation>, issued: int, now: int)
    requires ValidRun(run) && SevenDaysApart(run)
    requires run[0].at <= issued <= now && now / 1000 < issued / 1000 + REFRESH_SECONDS
    ensures VerifiesAt(run, issued, now)
  {
    HeldWhileUnexpired(run, issued, now, ActiveIndex(run, issued), ActiveIndex(run, now));
    VerifiesWhileKeyHeld(run, issued, now);
  }

  /** Seven days apart, a key is active or within its grace period while a token of its time is unexpired. */
  lemma {:induction false} HeldWhileUnexpired(run: seq<Rotation>, issued: int, now: int, j: nat, i: nat)
    requires ValidRun(run) && SevenDaysApart(run) && run[0].at <= issued <= now
    requires now / 1000 < issued / 1000 + REFRESH_SECONDS && j == ActiveIndex(run, issued) && i == ActiveIndex(run, now)
    ensures j == i || (j + 1 == i && now / 1000 < run[i].at / 1000 + REFRESH_SECONDS)
  {
    IndexMonotone(run, issued, now);
    NextNotYetActive(run, issued);
    GapSuffices(run, issued, now, j, i);
  }

  lemma GapSuffices(run: seq<Rotation>, issued: int, now: int, j: nat, i: nat)
    requires ValidRun(run) && GapOk(run, j) && j <= i < |run| && run[i].at <= now
    requires now / 1000 < issued / 1000 + REFRESH_SECONDS && (j + 1 < |run| ==> issued < run[j + 1].at)
    ensures j == i || (j + 1 == i && now / 1000 < run[i].at / 1000 + REFRESH_SECONDS)
  {
  }

  lemma CloserFails(run: seq<Rotation>, j: nat)
    requires ValidRun(run) && !GapOk(run, j)
    ensures !TokensVerifyUntilExpiry(run)
  {
    var issued, now := run[j + 1].at - 1, run[j + 2].at;
    ActiveIndexIs(run, issued, j);
    ActiveIndexIs(run, now, j + 2);
    VerifiesWhileKeyHeld(run, issued, now);
  }

  /** Main theorem: every unexpired refresh token finds its key exactly when rotations are seven days apart. */
  lemma VerifyExactlyWhenApart(run: seq<Rotation>)
    requires ValidRun(run)
    ensures TokensVerifyUntilExpiry(run) <==> SevenDaysApart(run)
  {
    if SevenDaysApart(run) {
      forall issued, now | run[0].at <= issued <= now && now / 1000 < issued / 1000 + REFRESH_SECONDS
        ensures VerifiesAt(run, issued, now)
      {
        ApartSuffices(run, issued, now);
      }
    } else {
      var j: nat :| !GapOk(run, j);
      CloserFails(run, j);
    }
  }

  /** Seven days between the instants themselves are enough. */
  lemma SevenDaysInMilliseconds(run: seq<Rotation>)
    requires forall i, j :: 0 < i < j < |run| ==> run[i].at + GRACE_MS <= run[j].at
    ensures SevenDaysApart(run)
  {
    forall j: nat
      ensures GapOk(run, j)
    {
      if j + 2 < |run| {
        assert run[j + 1].at + GRACE_MS <= run[j + 2].at;
      }
    }
  }

  /** Two rotations a day apart: a token of the first key finds no key while it is unexpired. */
  lemma {:induction false} DailyRotationBreaksTokens(run: seq<Rotation>)
    requires run == [Rotation(0, "k1", "s1"), Rotation(86400000, "k2", "s2"), Rotation(172800000, "k3", "s3")]
    ensures ValidRun(run) && !TokensVerifyUntilExpiry(run)
  {
    assert run[0].keyId[1] != run[1].keyId[1] && run[0].keyId[1] != run[2].keyId[1] &&
      run[1].keyId[1] != run[2].keyId[1];
    CloserFails(run, 0);
  }
}
