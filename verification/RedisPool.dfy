/**
 The Redis connection pool of the ingest node. A connection is a number, drawn in creation
 order. One action is what runs between two awaits: handing a connection out, opening one,
 releasing one, a close event, a replacement becoming ready.
 */
module RedisPool {
  import opened Wrappers
  import opened Collections

  type Conn = nat

  /**
   `replacing` are the connections whose replacement promise is still pending, `created` is how
   many connections exist, and `started` how many turns of the initialize loop have finished.
   */
  datatype Pool = Pool(pool: seq<Conn>, available: seq<Conn>, inUse: set<Conn>, replacing: set<Conn>, created: nat,
    started: nat)

  function IndexOf(s: seq<Conn>, c: Conn): (i: nat)
    requires c in s
    ensures i < |s| && s[i] == c && c !in s[..i]
  {
    if s[0] == c then 0 else 1 + IndexOf(s[1..], c)
  }

  /** indexOf and splice: the list without the first occurrence. */
  function Without(s: seq<Conn>, c: Conn): seq<Conn> {
    if c in s then s[..IndexOf(s, c)] + s[IndexOf(s, c) + 1..] else s
  }

  function Initial(): Pool { Pool([], [], {}, {}, 0, 0) }

  function InitTurn(p: Pool): Pool {
    p.(pool := p.pool + [p.created], available := p.available + [p.created], created := p.created + 1,
      started := p.started + 1)
  }

  function Take(p: Pool): (Pool, Conn)
    requires |p.available| > 0
  {
    var c := p.available[|p.available| - 1];
    (p.(available := p.available[..|p.available| - 1], inUse := p.inUse + {c}), c)
  }

  function Open(p: Pool): (Pool, Conn) {
    (p.(created := p.created + 1), p.created)
  }

  function FinishOpen(p: Pool, c: Conn): Pool {
    p.(pool := p.pool + [c], inUse := p.inUse + {c})
  }

  function Remove(p: Pool, min: nat, c: Conn): Pool {
    var p' := p.(pool := Without(p.pool, c), available := Without(p.available, c), inUse := p.inUse - {c});
    if |p'.pool| < min then p'.(replacing := p'.replacing + {p'.created}, created := p'.created + 1) else p'
  }

  function Release(p: Pool, min: nat, c: Conn, ready: bool): Pool {
    if c !in p.inUse then p
    else
      var p' := p.(inUse := p.inUse - {c});
      if ready then p'.(available := p'.available + [c]) else Remove(p', min, c)
  }

  function FinishReplacement(p: Pool, c: Conn): Pool {
    p.(pool := p.pool + [c], available := p.available + [c], replacing := p.replacing - {c})
  }

  class RedisConnectionPool {
    var pool: seq<Conn>
    var available: seq<Conn>
    var inUse: set<Conn>
    var replacing: set<Conn>
    var created: nat
    var started: nat
    const maxConnections: int
    const minConnections: nat

    function View(): Pool
      reads this
    {
      Pool(pool, available, inUse, replacing, created, started)
    }

    constructor (max: int, min: int)
      ensures View() == Initial()
      ensures maxConnections == (if max >= min then max else min)
      ensures minConnections == (if min >= 1 then min else 1)
    {
      pool, available, inUse, replacing, created, started := [], [], {}, {}, 0, 0;
      maxConnections := if max >= min then max else min;
      minConnections := if min >= 1 then min else 1;
    }

    /** One turn of the loop in initialize. */
    method FinishInitTurn()
      modifies this
      ensures View() == InitTurn(old(View()))
    {
      pool := pool + [created];
      available := available + [created];
      created := created + 1;
      started := started + 1;
    }

    /** getConnection before its first await: throws, hands out, opens, or leaves the caller to poll. */
    method GetConnection() returns (r: Result<(Option<Conn>, bool)>)
      modifies this
      ensures r.Thrown? <==> old(started) < minConnections
      ensures r.Thrown? ==> View() == old(View())
      ensures r.Ok? && |old(available)| > 0 ==>
                (View(), r.value.0) == (Take(old(View())).0, Some(Take(old(View())).1)) && r.value.1
      ensures r.Ok? && |old(available)| == 0 && |old(pool)| < maxConnections ==>
                (View(), r.value.0) == (Open(old(View())).0, Some(Open(old(View())).1)) && !r.value.1
      ensures r.Ok? && |old(available)| == 0 && |old(pool)| >= maxConnections ==>
          View() == old(View()) && r.value.0 == None
    {
      if started < minConnections {
        return Thrown("Redis pool not initialized");
      }
      if |available| > 0 {
        var client := available[|available| - 1];
        available := available[..|available| - 1];
        inUse := inUse + {client};
        return Ok((Some(client), true));
      }
      if |pool| < maxConnections {
        var client := created;
        created := created + 1;
        return Ok((Some(client), false));
      }
      r := Ok((None, false));
    }

    /** getConnection after createConnection resolves. */
    method FinishOpening(c: Conn)
      modifies this
      ensures View() == FinishOpen(old(View()), c)
    {
      pool := pool + [c];
      inUse := inUse + {c};
    }

    method ReleaseConnection(c: Conn, ready: bool)
      modifies this
      ensures View() == Release(old(View()), minConnections, c, ready)
    {
      if c in inUse {
        inUse := inUse - {c};
        if ready {
          available := available + [c];
        } else {
          RemoveConnection(c);
        }
      }
    }

    method RemoveConnection(c: Conn)
      modifies this
      ensures View() == Remove(old(View()), minConnections, c)
    {
      pool := Without(pool, c);
      available := Without(available, c);
      inUse := inUse - {c};
      if |pool| < minConnections {
        replacing := replacing + {created};
        created := created + 1;
      }
    }

    method ReplacementReady(c: Conn)
      modifies this
      ensures View() == FinishReplacement(old(View()), c)
    {
      pool := pool + [c];
      available := available + [c];
      replacing := replacing - {c};
    }
  }

  // ----- runs of executeCommand and close events

  /** `opening` and `holding` are the callers' own variables: the connection each is waiting for or using. */
  datatype World = World(p: Pool, opening: map<nat, Conn>, holding: map<nat, Conn>)

  datatype Config = Config(min: nat, max: int)

  datatype Action =
    | Init
    | TakeAvailable(caller: nat)
    | StartOpening(caller: nat)
    | EndOpening(caller: nat)
    | EndCommand(caller: nat, ready: bool)
    | Close(conn: Conn)
    | ReplacementOk(conn: Conn)
    | ReplacementFails(conn: Conn)

  predicate Idle(w: World, caller: nat) { caller !in w.opening && caller !in w.holding }

  predicate Enabled(cfg: Config, w: World, a: Action) {
    match a
    case Init => w.p.started < cfg.min
    case TakeAvailable(caller) => w.p.started >= cfg.min && Idle(w, caller) && |w.p.available| > 0
    case StartOpening(caller) =>
      w.p.started >= cfg.min && Idle(w, caller) && |w.p.available| == 0 && |w.p.pool| < cfg.max
    case EndOpening(caller) => caller in w.opening
    case EndCommand(caller, _) => caller in w.holding
    case Close(conn) => conn < w.p.created
    case ReplacementOk(conn) => conn in w.p.replacing
    case ReplacementFails(conn) => conn in w.p.replacing
  }

  function Apply(cfg: Config, w: World, a: Action): World
    requires Enabled(cfg, w, a)
  {
    match a
    case Init => w.(p := InitTurn(w.p))
    case TakeAvailable(caller) =>
      var (p, c) := Take(w.p);
      w.(p := p, holding := w.holding[caller := c])
    case StartOpening(caller) =>
      var (p, c) := Open(w.p);
      w.(p := p, opening := w.opening[caller := c])
    case EndOpening(caller) =>
      var c := w.opening[caller];
      World(FinishOpen(w.p, c), w.opening - {caller}, w.holding[caller := c])
    case EndCommand(caller, ready) =>
      w.(p := Release(w.p, cfg.min, w.holding[caller], ready), holding := w.holding - {caller})
    case Close(conn) => w.(p := Remove(w.p, cfg.min, conn))
    case ReplacementOk(conn) => w.(p := FinishReplacement(w.p, conn))
    case ReplacementFails(conn) => w.(p := w.p.(replacing := w.p.replacing - {conn}))
  }

  ghost predicate IsRun(cfg: Config, w: World, acts: seq<Action>)
    decreases |acts|
  {
    |acts| == 0 || (Enabled(cfg, w, acts[0]) && IsRun(cfg, Apply(cfg, w, acts[0]), acts[1..]))
  }

  ghost function After(cfg: Config, w: World, acts: seq<Action>): World
    requires IsRun(cfg, w, acts)
    decreases |acts|
  {
    if |acts| == 0 then w else After(cfg, Apply(cfg, w, acts[0]), acts[1..])
  }

  // ----- what every run keeps

  /** The pool lists each connection once and is the disjoint union of available and in use. */
  ghost predicate Partition(p: Pool) {
    && NoDuplicates(p.pool) && NoDuplicates(p.available)
    && (forall c :: c in p.pool <==> c in p.available || c in p.inUse)
    && (forall c :: c in p.available ==> c !in p.inUse)
  }

  /** Connections not yet in the pool are waited for by one promise only and used by nobody. */
  ghost predicate Unborn(w: World) {
    && (forall c :: c in w.p.pool ==> c < w.p.created)
    && (forall c :: c in w.p.replacing ==> c < w.p.created && c !in w.p.pool)
    && (forall x :: x in w.opening ==>
          w.opening[x] < w.p.created && w.opening[x] !in w.p.pool && w.opening[x] !in w.p.replacing)
    && (forall x, y :: x in w.opening && y in w.opening && w.opening[x] == w.opening[y] ==> x == y)
    && (forall x :: x in w.opening ==> x !in w.holding)
  }

  /** A connection in use has exactly one user, and nobody uses an available or unborn one. */
  ghost predicate SoleUser(w: World) {
    && (forall x, y :: x in w.holding && y in w.holding && w.holding[x] == w.holding[y] ==> x == y)
    && (forall x :: x in w.holding ==>
          w.holding[x] < w.p.created && w.holding[x] !in w.p.available && w.holding[x] !in w.p.replacing)
    && (forall x, y :: x in w.holding && y in w.opening ==> w.holding[x] != w.opening[y])
    && (forall c :: c in w.p.inUse ==> Used(w, c))
  }

  ghost predicate Used(w: World, c: Conn) { exists x :: x in w.holding && w.holding[x] == c }

  ghost predicate Inv(w: World) { Partition(w.p) && Unborn(w) && SoleUser(w) }

  lemma WithoutLemma(s: seq<Conn>, c: Conn)
    requires NoDuplicates(s)
    ensures NoDuplicates(Without(s, c))
    ensures forall x :: x in Without(s, c) <==> x in s && x != c
    ensures |Without(s, c)| == if c in s then |s| - 1 else |s|
  {
    if c in s {
      var i := IndexOf(s, c);
      assert forall x :: x in s[..i] + s[i + 1..] <==> x in s && x != c by {
        assert s == s[..i] + [s[i]] + s[i + 1..];
      }
    }
  }

  lemma PushLemma(s: seq<Conn>, c: Conn)
    requires NoDuplicates(s) && c !in s
    ensures NoDuplicates(s + [c])
    ensures forall x :: x in s + [c] <==> x in s || x == c
  {
  }

  lemma PopLemma(s: seq<Conn>)
    requires NoDuplicates(s) && |s| > 0
    ensures NoDuplicates(s[..|s| - 1])
    ensures forall x :: x in s[..|s| - 1] <==> x in s && x != s[|s| - 1]
  {
    assert s == s[..|s| - 1] + [s[|s| - 1]];
  }

  lemma RemoveKeepsPartition(p: Pool, min: nat, c: Conn)
    requires Partition(p)
    ensures Partition(Remove(p, min, c)) && c !in Remove(p, min, c).pool
    ensures forall x :: x in Remove(p, min, c).pool <==> x in p.pool && x != c
    ensures forall x :: x in Remove(p, min, c).available <==> x in p.available && x != c
  {
    WithoutLemma(p.pool, c);
    WithoutLemma(p.available, c);
  }

  lemma ReleaseKeepsPartition(p: Pool, min: nat, c: Conn, ready: bool)
    requires Partition(p)
    ensures var p' := Release(p, min, c, ready);
            && Partition(p')
            && (forall x :: x in p'.pool ==> x in p.pool)
            && (forall x :: x in p'.available ==> x in p.available || (x == c && c in p.inUse))
            && p'.inUse == p.inUse - {c}
            && (p'.replacing == p.replacing || p'.replacing == p.replacing + {p.created}) && p.created <= p'.created
            && (p'.replacing != p.replacing ==> p'.created == p.created + 1)
  {
    if c in p.inUse {
      if ready {
        PushLemma(p.available, c);
      } else {
        assert p.inUse - {c} - {c} == p.inUse - {c};
        assert Release(p, min, c, ready) == Remove(p, min, c);
        RemoveKeepsPartition(p, min, c);
      }
    }
  }

  lemma StepPartition(cfg: Config, w: World, a: Action)
    requires Inv(w) && Enabled(cfg, w, a)
    ensures Partition(Apply(cfg, w, a).p)
  {
    match a
    case Init =>
      PushLemma(w.p.pool, w.p.created);
      PushLemma(w.p.available, w.p.created);
    case TakeAvailable(x) => PopLemma(w.p.available);
    case StartOpening(x) =>
    case EndOpening(x) => PushLemma(w.p.pool, w.opening[x]);
    case EndCommand(x, ready) => ReleaseKeepsPartition(w.p, cfg.min, w.holding[x], ready);
    case Close(c) => RemoveKeepsPartition(w.p, cfg.min, c);
    case ReplacementOk(c) =>
      PushLemma(w.p.pool, c);
      PushLemma(w.p.available, c);
    case ReplacementFails(c) =>
  }

  lemma ShrinkKeepsUnborn(w: World, w': World)
    requires Unborn(w) && w'.opening == w.opening && (forall x :: x in w'.holding ==> x in w.holding)
    requires forall x :: x in w'.p.pool ==> x in w.p.pool
    requires w.p.created <= w'.p.created
    requires w'.p.replacing == w.p.replacing || (w'.p.replacing == w.p.replacing + {w.p.created} &&
        w'.p.created == w.p.created + 1)
    ensures Unborn(w')
  {
  }

  lemma StepUnborn(cfg: Config, w: World, a: Action)
    requires Inv(w) && Enabled(cfg, w, a)
    ensures Unborn(Apply(cfg, w, a))
  {
    match a
    case EndCommand(x, ready) =>
      ReleaseKeepsPartition(w.p, cfg.min, w.holding[x], ready);
      ShrinkKeepsUnborn(w, Apply(cfg, w, a));
    case Close(c) =>
      RemoveKeepsPartition(w.p, cfg.min, c);
      ShrinkKeepsUnborn(w, Apply(cfg, w, a));
    case _ =>
  }

  /** Whoever used a connection before a step still does, unless it was the one who released it. */
  lemma StillUsed(w: World, w': World, c: Conn, x: nat)
    requires Used(w, c) && (x in w.holding ==> w.holding[x] != c)
    requires forall y :: y in w.holding && y != x ==> y in w'.holding && w'.holding[y] == w.holding[y]
    ensures Used(w', c)
  {
    var y :| y in w.holding && w.holding[y] == c;
    assert y in w'.holding;
  }

  lemma StepUsed(cfg: Config, w: World, a: Action, c: Conn)
    requires Inv(w) && Enabled(cfg, w, a) && c in Apply(cfg, w, a).p.inUse
    ensures Used(Apply(cfg, w, a), c)
  {
    var w' := Apply(cfg, w, a);
    match a
    case TakeAvailable(x) =>
      if c in w.p.inUse { StillUsed(w, w', c, x); } else { assert w'.holding[x] == c; }
    case EndOpening(x) =>
      if c in w.p.inUse { StillUsed(w, w', c, x); } else { assert w'.holding[x] == c; }
    case EndCommand(x, ready) =>
      ReleaseKeepsPartition(w.p, cfg.min, w.holding[x], ready);
      StillUsed(w, w', c, x);
    case _ =>
      assert w'.holding == w.holding && Used(w, c);
  }

  /** Holders after a step: nobody new, or one who took an available or newly opened connection. */
  lemma StepHolders(cfg: Config, w: World, a: Action)
    requires Inv(w) && Enabled(cfg, w, a)
    ensures var w' := Apply(cfg, w, a);
            && (forall x, y :: x in w'.holding && y in w'.holding && w'.holding[x] == w'.holding[y] ==> x == y)
            && (forall x, y :: x in w'.holding && y in w'.opening ==> w'.holding[x] != w'.opening[y])
  {
  }

  lemma StepHeldElsewhere(cfg: Config, w: World, a: Action, x: nat)
    requires Inv(w) && Enabled(cfg, w, a) && x in Apply(cfg, w, a).holding
    ensures var w' := Apply(cfg, w, a);
            w'.holding[x] < w'.p.created && w'.holding[x] !in w'.p.available && w'.holding[x] !in w'.p.replacing
  {
    match a
    case TakeAvailable(y) => PopLemma(w.p.available);
    case EndCommand(y, ready) => ReleaseKeepsPartition(w.p, cfg.min, w.holding[y], ready);
    case Close(c) => RemoveKeepsPartition(w.p, cfg.min, c);
    case _ =>
  }

  lemma StepInv(cfg: Config, w: World, a: Action)
    requires Inv(w) && Enabled(cfg, w, a)
    ensures Inv(Apply(cfg, w, a))
  {
    var w' := Apply(cfg, w, a);
    StepPartition(cfg, w, a);
    StepUnborn(cfg, w, a);
    StepHolders(cfg, w, a);
    forall x | x in w'.holding
      ensures w'.holding[x] < w'.p.created && w'.holding[x] !in w'.p.available && w'.holding[x] !in w'.p.replacing
    {
      StepHeldElsewhere(cfg, w, a, x);
    }
    forall c | c in w'.p.inUse
      ensures Used(w', c)
    {
      StepUsed(cfg, w, a, c);
    }
  }

  /** At every await boundary of every run the pool is partitioned and no connection has two users. */
  lemma {:induction false} RunKeepsPartition(cfg: Config, w: World, acts: seq<Action>)
    requires Inv(w) && IsRun(cfg, w, acts)
    ensures Inv(After(cfg, w, acts))
    decreases |acts|
  {
    if |acts| > 0 {
      StepInv(cfg, w, acts[0]);
      RunKeepsPartition(cfg, Apply(cfg, w, acts[0]), acts[1..]);
    }
  }

  // ----- a removed connection stays out

  /** Out of the pool, and no promise will put it back. */
  ghost predicate Gone(w: World, c: Conn) {
    c < w.p.created && c !in w.p.pool && c !in w.p.replacing && forall x :: x in w.opening ==> w.opening[x] != c
  }

  /** A close event on a connection in use makes it gone. */
  lemma CloseInUse(cfg: Config, w: World, c: Conn)
    requires Inv(w) && c in w.p.inUse
    ensures Enabled(cfg, w, Close(c)) && Gone(Apply(cfg, w, Close(c)), c)
  {
    RemoveKeepsPartition(w.p, cfg.min, c);
  }

  lemma StepGone(cfg: Config, w: World, a: Action, c: Conn)
    requires Inv(w) && Enabled(cfg, w, a) && Gone(w, c)
    ensures Gone(Apply(cfg, w, a), c)
  {
    match a
    case EndCommand(x, ready) => ReleaseKeepsPartition(w.p, cfg.min, w.holding[x], ready);
    case Close(d) => RemoveKeepsPartition(w.p, cfg.min, d);
    case _ =>
  }

  /** A connection removed while in use never becomes available, or in use, again. */
  lemma {:induction false} GoneForGood(cfg: Config, w: World, acts: seq<Action>, c: Conn)
    requires Inv(w) && IsRun(cfg, w, acts) && Gone(w, c)
    ensures c !in After(cfg, w, acts).p.available && c !in After(cfg, w, acts).p.inUse
    decreases |acts|
  {
    if |acts| > 0 {
      StepInv(cfg, w, acts[0]);
      StepGone(cfg, w, acts[0], c);
      GoneForGood(cfg, Apply(cfg, w, acts[0]), acts[1..], c);
    }
  }

  // ----- what a release does with the connection

  /**
   A released connection becomes available exactly when it is ready and was still in use, and is
   then the next to be handed out; any other is gone.
   */
  lemma ReleaseExactly(cfg: Config, w: World, x: nat, ready: bool)
    requires Inv(w) && x in w.holding
    ensures var c, w' := w.holding[x], Apply(cfg, w, EndCommand(x, ready));
            && (c in w'.p.available <==> ready && c in w.p.inUse)
            && (c in w'.p.available ==> c in w'.p.pool && w'.p.pool == w.p.pool)
            && (c in w'.p.available ==> |w'.p.available| > 0 && Take(w'.p).1 == c)
            && (c !in w'.p.available ==> Gone(w', c))
  {
    var c := w.holding[x];
    ReleaseKeepsPartition(w.p, cfg.min, c, ready);
    if c in w.p.inUse && !ready {
      assert w.p.inUse - {c} - {c} == w.p.inUse - {c};
      RemoveKeepsPartition(w.p, cfg.min, c);
    }
  }

  /** The last thing known of a connection: it was made for the pool, or how it was last released. */
  ghost function LastSeen(cfg: Config, w: World, acts: seq<Action>, c: Conn, seen: Option<bool>): Option<bool>
    requires IsRun(cfg, w, acts)
    decreases |acts|
  {
    if |acts| == 0 then seen else LastSeen(cfg, Apply(cfg, w, acts[0]), acts[1..], c, Seen(w, acts[0], c, seen))
  }

  function Seen(w: World, a: Action, c: Conn, seen: Option<bool>): Option<bool> {
    match a
    case Init => if c == w.p.created then Some(true) else seen
    case ReplacementOk(d) => if c == d then Some(true) else seen
    case EndCommand(x, ready) => if x in w.holding && w.holding[x] == c then Some(ready) else seen
    case _ => seen
  }

  lemma SeenStep(cfg: Config, w: World, a: Action, c: Conn, seen: Option<bool>)
    requires Inv(w) && Enabled(cfg, w, a) && (c in w.p.available ==> seen == Some(true))
    ensures c in Apply(cfg, w, a).p.available ==> Seen(w, a, c, seen) == Some(true)
  {
    match a
    case TakeAvailable(_) => PopLemma(w.p.available);
    case EndCommand(x, ready) =>
      ReleaseKeepsPartition(w.p, cfg.min, w.holding[x], ready);
      ReleaseExactly(cfg, w, x, ready);
    case Close(d) => RemoveKeepsPartition(w.p, cfg.min, d);
    case _ =>
  }

  /** Over every run, an available connection was made for the pool or was ready when it was last released. */
  lemma {:induction false} AvailableWasReady(cfg: Config, w: World, acts: seq<Action>, c: Conn, seen: Option<bool>)
    requires Inv(w) && IsRun(cfg, w, acts) && (c in w.p.available ==> seen == Some(true))
    ensures c in After(cfg, w, acts).p.available ==> LastSeen(cfg, w, acts, c, seen) == Some(true)
    decreases |acts|
  {
    if |acts| > 0 {
      StepInv(cfg, w, acts[0]);
      SeenStep(cfg, w, acts[0], c, seen);
      AvailableWasReady(cfg, Apply(cfg, w, acts[0]), acts[1..], c, Seen(w, acts[0], c, seen));
    }
  }

  // ----- the minimum size

  /** Connections in the pool or promised as replacements. */
  function Supply(w: World): nat { |w.p.pool| + |w.p.replacing| }

  lemma RemoveSupply(p: Pool, min: nat, c: Conn)
    requires NoDuplicates(p.pool) && p.created !in p.replacing
    ensures var p' := Remove(p, min, c);
            |p'.pool| + |p'.replacing| >= min || |p'.pool| + |p'.replacing| >= |p.pool| + |p.replacing|
  {
    WithoutLemma(p.pool, c);
  }

  /** A removal starts one replacement exactly when it leaves fewer connections than the minimum. */
  lemma ReplacesExactly(p: Pool, min: nat, c: Conn)
    requires NoDuplicates(p.pool) && p.created !in p.replacing
    ensures var left, p' := if c in p.pool then |p.pool| - 1 else |p.pool|, Remove(p, min, c);
            |p'.pool| == left && |p'.replacing| == |p.replacing| + if left < min then 1 else 0
  {
    WithoutLemma(p.pool, c);
  }

  lemma StepSupply(cfg: Config, w: World, a: Action)
    requires Inv(w) && Enabled(cfg, w, a) && w.p.started <= cfg.min && Supply(w) >= w.p.started
    requires !a.ReplacementFails?
    ensures var w' := Apply(cfg, w, a); w'.p.started <= cfg.min && Supply(w') >= w'.p.started
  {
    match a
    case Close(c) => RemoveSupply(w.p, cfg.min, c);
    case EndCommand(x, ready) =>
      var c := w.holding[x];
      if c in w.p.inUse && !ready {
        RemoveSupply(w.p.(inUse := w.p.inUse - {c}), cfg.min, c);
      }
    case _ =>
  }

  /**
   From the end of initialize on, the pool and its pending replacements never number fewer than
   the minimum, whatever closes and releases happen, as long as no replacement fails.
   */
  lemma {:induction false} SupplyNeverShort(cfg: Config, w: World, acts: seq<Action>)
    requires Inv(w) && IsRun(cfg, w, acts) && w.p.started <= cfg.min && Supply(w) >= w.p.started
    requires forall i :: 0 <= i < |acts| ==> !acts[i].ReplacementFails?
    ensures var w' := After(cfg, w, acts); w'.p.started == cfg.min ==> Supply(w') >= cfg.min
    decreases |acts|
  {
    if |acts| > 0 {
      StepInv(cfg, w, acts[0]);
      StepSupply(cfg, w, acts[0]);
      SupplyNeverShort(cfg, Apply(cfg, w, acts[0]), acts[1..]);
    }
  }

  /** A failing replacement leaves the pool short exactly when the supply had nothing to spare. */
  lemma ShortExactlyWhenNothingSpare(cfg: Config, w: World, c: Conn)
    requires Enabled(cfg, w, ReplacementFails(c)) && Supply(w) >= cfg.min
    ensures Supply(Apply(cfg, w, ReplacementFails(c))) < cfg.min <==> Supply(w) == cfg.min
  {
  }

  ghost predicate SuppliedThroughout(cfg: Config, w: World, acts: seq<Action>)
    requires IsRun(cfg, w, acts)
    decreases |acts|
  {
    Supply(w) >= cfg.min && (|acts| == 0 || SuppliedThroughout(cfg, Apply(cfg, w, acts[0]), acts[1..]))
  }

  /** No replacement fails at a moment with nothing to spare. */
  ghost predicate FailuresSpared(cfg: Config, w: World, acts: seq<Action>)
    requires IsRun(cfg, w, acts)
    decreases |acts|
  {
    |acts| == 0 ||
    ((acts[0].ReplacementFails? ==> Supply(w) > cfg.min) && FailuresSpared(cfg, Apply(cfg, w, acts[0]), acts[1..]))
  }

  /**
   Over every run from the end of initialize, failures included, the supply is never short exactly
   when each failure had one to spare.
   */
  lemma {:induction false} SuppliedExactly(cfg: Config, w: World, acts: seq<Action>)
    requires Inv(w) && IsRun(cfg, w, acts) && w.p.started == cfg.min && Supply(w) >= cfg.min
    ensures SuppliedThroughout(cfg, w, acts) <==> FailuresSpared(cfg, w, acts)
    decreases |acts|
  {
    if |acts| > 0 {
      var a, w' := acts[0], Apply(cfg, w, acts[0]);
      StepInv(cfg, w, a);
      if a.ReplacementFails? {
        ShortExactlyWhenNothingSpare(cfg, w, a.conn);
      } else {
        StepSupply(cfg, w, a);
      }
      if Supply(w') >= cfg.min {
        SuppliedExactly(cfg, w', acts[1..]);
      }
    }
  }

  const EMPTY := World(Initial(), map[], map[])

  /** The empty pool satisfies the invariant, so the theorems hold of every run from construction. */
  lemma InitiallyEmpty()
    ensures Inv(EMPTY) && Supply(EMPTY) >= EMPTY.p.started
  {
  }

  /** One connection, closed, whose replacement fails: nothing is left and nothing is on its way. */
  lemma {:induction false} FailedReplacementLeavesNone(acts: seq<Action>)
    requires acts == [Init, Close(0), ReplacementFails(1)]
    ensures IsRun(Config(1, 1), EMPTY, acts) && Supply(After(Config(1, 1), EMPTY, acts)) == 0
  {
    var cfg := Config(1, 1);
    var w1 := Apply(cfg, EMPTY, Init);
    assert w1.p == Pool([0], [0], {}, {}, 1, 1);
    var w2 := Apply(cfg, w1, Close(0));
    assert w2.p == Pool([], [], {}, {1}, 2, 1);
    var w3 := Apply(cfg, w2, ReplacementFails(1));
    assert acts[1..] == [Close(0), ReplacementFails(1)] && acts[1..][1..] == [ReplacementFails(1)];
    assert acts[1..][1..][1..] == [];
    assert IsRun(cfg, w3, []) && IsRun(cfg, w2, acts[1..][1..]) && IsRun(cfg, w1, acts[1..]);
    assert After(cfg, w2, acts[1..][1..]) == w3;
  }
}
