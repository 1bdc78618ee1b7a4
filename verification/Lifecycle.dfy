/** Startup and shutdown of the resources a process owns. */
module Lifecycle {
  import opened Signals

  datatype DbFields = DbFields(engine: bool, factory: bool)

  datatype RedisFields = RedisFields(pool: bool, client: bool)

  /** `_engine`, `_session_factory`, `_pool`, `_client`: set or not. */
  datatype Fields = Fields(db: DbFields, redis: RedisFields, accepting: bool)

  /** Faults of the steps of `startup` and `shutdown`, where they are reached. */
  datatype StartFaults = StartFaults(engine: Signal, factory: Signal, pool: Signal, client: Signal)

  datatype StopFaults = StopFaults(client: Signal, pool: Signal, dispose: Signal)

  function ConnectDb(d: DbFields, engine: Signal, factory: Signal): (DbFields, Signal) {
    if d.engine then (d, Fine)
    else if !engine.Fine? then (d, engine)
    else if !factory.Fine? then (d.(engine := true), factory)
    else (DbFields(true, true), Fine)
  }

  function DisconnectDb(d: DbFields, dispose: Signal): (DbFields, Signal) {
    if !d.engine then (d, Fine)
    else if !dispose.Fine? then (d, dispose)
    else (DbFields(false, false), Fine)
  }

  function ConnectRedis(r: RedisFields, pool: Signal, client: Signal): (RedisFields, Signal) {
    if r.client then (r, Fine)
    else if !pool.Fine? then (r, pool)
    else if !client.Fine? then (r.(pool := true), client)
    else (RedisFields(true, true), Fine)
  }

  function DisconnectRedis(r: RedisFields, client: Signal, pool: Signal): (RedisFields, Signal) {
    if r.client && !client.Fine? then (r, client)
    else if r.pool && !pool.Fine? then (RedisFields(true, false), pool)
    else (RedisFields(false, false), Fine)
  }

  function Startup(s: Fields, f: StartFaults): (Fields, Signal) {
    var (d, e) := ConnectDb(s.db, f.engine, f.factory);
    if !e.Fine? then (s.(db := d), e)
    else
      var (r, e') := ConnectRedis(s.redis, f.pool, f.client);
      (s.(db := d, redis := r), e')
  }

  /** The second component says whether the database was attempted. */
  function Shutdown(s: Fields, f: StopFaults): (Fields, bool, Signal) {
    var (r, e) := DisconnectRedis(s.redis, f.client, f.pool);
    if e.Base? then (s.(redis := r), false, e)
    else
      var (d, e') := DisconnectDb(s.db, f.dispose);
      (s.(redis := r, db := d), true, if e'.Base? then e' else Fine)
  }

  // ----- the objects ----------------------------------------------------------------------

  class Database {
    var engine: bool
    var sessionFactory: bool

    constructor ()
      ensures View() == DbFields(false, false)
    {
      engine, sessionFactory := false, false;
    }

    function View(): DbFields
      reads this
    {
      DbFields(engine, sessionFactory)
    }

    method Connect(create: Signal, factory: Signal) returns (raised: Signal)
      modifies this
      ensures (View(), raised) == ConnectDb(old(View()), create, factory)
      ensures old(engine) ==> View() == old(View()) && raised == Fine
      ensures engine <==> old(engine) || create.Fine?
      ensures !old(engine) && raised.Fine? ==> sessionFactory
    {
      if engine { return Fine; }
      if !create.Fine? { return create; }
      engine := true;
      if !factory.Fine? { return factory; }
      sessionFactory := true;
      return Fine;
    }

    method Disconnect(dispose: Signal) returns (raised: Signal)
      modifies this
      ensures (View(), raised) == DisconnectDb(old(View()), dispose)
      ensures raised.Fine? ==> !engine
      ensures !raised.Fine? ==> View() == old(View())
    {
      if engine {
        if !dispose.Fine? { return dispose; }
        engine := false;
        sessionFactory := false;
      }
      return Fine;
    }
  }

  class RedisClient {
    var pool: bool
    var client: bool

    constructor ()
      ensures View() == RedisFields(false, false)
    {
      pool, client := false, false;
    }

    function View(): RedisFields
      reads this
    {
      RedisFields(pool, client)
    }

    method Connect(createPool: Signal, createClient: Signal) returns (raised: Signal)
      modifies this
      ensures (View(), raised) == ConnectRedis(old(View()), createPool, createClient)
      ensures raised.Fine? <==> client
    {
      if client { return Fine; }
      if !createPool.Fine? { return createPool; }
      pool := true;
      if !createClient.Fine? { return createClient; }
      client := true;
      return Fine;
    }

    method Disconnect(closeClient: Signal, closePool: Signal) returns (raised: Signal)
      modifies this
      ensures (View(), raised) == DisconnectRedis(old(View()), closeClient, closePool)
      ensures raised.Fine? <==> View() == RedisFields(false, false)
    {
      if client {
        if !closeClient.Fine? { return closeClient; }
        client := false;
      }
      if pool {
        if !closePool.Fine? { return closePool; }
        pool := false;
      }
      return Fine;
    }
  }

  class AppState {
    const database: Database
    const redis: RedisClient
    var acceptingTraffic: bool

    constructor ()
      ensures fresh(database) && fresh(redis) && View() == INITIAL
    {
      database := new Database();
      redis := new RedisClient();
      acceptingTraffic := true;
    }

    function View(): Fields
      reads this, database, redis
    {
      Fields(database.View(), redis.View(), acceptingTraffic)
    }

    method StartUp(f: StartFaults) returns (raised: Signal)
      modifies database, redis
      ensures (View(), raised) == Startup(old(View()), f)
      ensures old(Sound(View()) && Paired(View())) ==> (raised.Fine? <==> AllSet(View()))
    {
      raised := database.Connect(f.engine, f.factory);
      if raised.Fine? {
        raised := redis.Connect(f.pool, f.client);
      }
    }

    /** The loop over the two closers, unrolled. Only ordinary exceptions are caught. */
    method ShutDown(f: StopFaults) returns (attempted: bool, raised: Signal)
      modifies database, redis
      ensures (View(), attempted, raised) == Shutdown(old(View()), f)
      ensures !attempted ==> raised.Base? && database.View() == old(database.View())
      ensures old(Sound(View())) ==> (NoneSet(View()) <==> ClosesWell(old(View()), f))
    {
      raised := redis.Disconnect(f.client, f.pool);
      if raised.Base? {
        return false, raised;
      }
      raised := database.Disconnect(f.dispose);
      return true, if raised.Base? then raised else Fine;
    }

    method BeginShutdown()
      modifies this`acceptingTraffic
      ensures View() == old(View()).(accepting := false)
    {
      acceptingTraffic := false;
    }

    /** Operations one after the other, whatever their callers make of what they raise. */
    method Perform(ops: seq<Op>)
      requires Sound(View())
      modifies this, database, redis
      ensures View() == Run(old(View()), ops) && Sound(View())
      ensures Drain in ops || !old(acceptingTraffic) ==> !acceptingTraffic
    {
      ghost var start := View();
      for i := 0 to |ops|
        invariant Run(View(), ops[i..]) == Run(start, ops)
      {
        assert ops[i..][0] == ops[i] && ops[i..][1..] == ops[i + 1..];
        match ops[i] {
          case Start(f) => var _ := StartUp(f);
          case Drain => BeginShutdown();
          case Stop(f) => var _, _ := ShutDown(f);
        }
      }
      assert ops[|ops|..] == [];
      RunIsSound(start, ops);
    }
  }

  // ----- runs -----------------------------------------------------------------------------

  const INITIAL := Fields(DbFields(false, false), RedisFields(false, false), true)

  datatype Op = Start(start: StartFaults) | Drain | Stop(stop: StopFaults)

  function OpStep(s: Fields, op: Op): Fields {
    match op
    case Start(f) => Startup(s, f).0
    case Drain => s.(accepting := false)
    case Stop(f) => Shutdown(s, f).0
  }

  function Run(s: Fields, ops: seq<Op>): Fields
    decreases |ops|
  {
    if ops == [] then s else Run(OpStep(s, ops[0]), ops[1..])
  }

  predicate Sound(s: Fields) {
    (s.db.factory ==> s.db.engine) && (s.redis.client ==> s.redis.pool)
  }

  predicate Paired(s: Fields) {
    s.db.engine == s.db.factory
  }

  predicate AllSet(s: Fields) {
    s.db == DbFields(true, true) && s.redis == RedisFields(true, true)
  }

  predicate NoneSet(s: Fields) {
    s.db == DbFields(false, false) && s.redis == RedisFields(false, false)
  }

  /** Every closing that there is something to do for ends well. */
  predicate ClosesWell(s: Fields, f: StopFaults) {
    (s.redis.client ==> f.client.Fine?) && (s.redis.pool ==> f.pool.Fine?) && (s.db.engine ==> f.dispose.Fine?)
  }

  /** Neither closing step of Redis that is reached raises past `except Exception`. */
  predicate RedisLetsThrough(r: RedisFields, f: StopFaults) {
    !(r.client && f.client.Base?) && !(r.pool && f.pool.Base? && (r.client ==> f.client.Fine?))
  }

  /** Under any faults: no factory without an engine, no client without a pool, and a process that
      drains keeps draining. */
  lemma {:induction false} RunIsSound(s: Fields, ops: seq<Op>)
    requires Sound(s)
    ensures Sound(Run(s, ops)) && (!s.accepting ==> !Run(s, ops).accepting)
    ensures Drain in ops ==> !Run(s, ops).accepting
    decreases |ops|
  {
    if ops != [] {
      RunIsSound(OpStep(s, ops[0]), ops[1..]);
      assert ops == [ops[0]] + ops[1..];
    }
  }

  /** The step creates the engine, and building the session factory raises. */
  predicate BreaksPair(s: Fields, op: Op) {
    op.Start? && !s.db.engine && op.start.engine.Fine? && !op.start.factory.Fine?
  }

  /** The step is a shutdown that gets as far as the database and disposes of the engine. */
  predicate MendsPair(s: Fields, op: Op) {
    op.Stop? && RedisLetsThrough(s.redis, op.stop) && op.stop.dispose.Fine?
  }

  /** When engine and factory are set together after a step: as long as no step breaks the pair,
      and again from the first shutdown on that mends it. */
  lemma PairedAfterStepIff(s: Fields, op: Op)
    requires Sound(s)
    ensures Paired(OpStep(s, op)) <==> if Paired(s) then !BreaksPair(s, op) else MendsPair(s, op)
  {
  }

  lemma {:induction false} RunSnoc(s: Fields, ops: seq<Op>, op: Op)
    ensures Run(s, ops + [op]) == OpStep(Run(s, ops), op)
    decreases |ops|
  {
    if ops == [] {
      assert [op][1..] == [];
    } else {
      assert (ops + [op])[1..] == ops[1..] + [op];
      RunSnoc(OpStep(s, ops[0]), ops[1..], op);
    }
  }

  /** The i-th operation, where it stands in the run, breaks the pair; the j-th mends it. */
  predicate BreaksAt(s: Fields, ops: seq<Op>, i: nat) {
    i < |ops| && BreaksPair(Run(s, ops[..i]), ops[i])
  }

  predicate MendsAt(s: Fields, ops: seq<Op>, j: nat) {
    j < |ops| && MendsPair(Run(s, ops[..j]), ops[j])
  }

  /** After a run engine and factory are set together exactly when every breaking step is followed
      by a mending one. */
  lemma {:induction false} PairedAfterRunIff(s: Fields, ops: seq<Op>)
    requires Sound(s) && Paired(s)
    ensures Paired(Run(s, ops)) <==>
            forall i :: 0 <= i < |ops| && BreaksAt(s, ops, i) ==> exists j :: i < j < |ops| && MendsAt(s, ops, j)
    decreases |ops|
  {
    if ops != [] {
      var n := |ops| - 1;
      var before := ops[..n];
      assert ops == before + [ops[n]];
      RunSnoc(s, before, ops[n]);
      PairedAfterRunIff(s, before);
      RunIsSound(s, before);
      PairedAfterStepIff(Run(s, before), ops[n]);
      forall k | 0 <= k < n ensures before[..k] == ops[..k] && before[k] == ops[k] {}
      forall k: nat | k < n
        ensures BreaksAt(s, before, k) == BreaksAt(s, ops, k) && MendsAt(s, before, k) == MendsAt(s, ops, k) {}
      assert BreaksAt(s, ops, n) == BreaksPair(Run(s, before), ops[n]);
      assert MendsAt(s, ops, n) == MendsPair(Run(s, before), ops[n]);
      if Paired(Run(s, before)) {
        MendedBefore(s, ops, n);
      } else {
        BrokenBefore(s, ops, n);
      }
    }
  }

  ghost predicate AllMended(s: Fields, ops: seq<Op>, n: nat) {
    forall i :: 0 <= i < n && BreaksAt(s, ops, i) ==> exists j :: i < j < n && MendsAt(s, ops, j)
  }

  lemma MendedBefore(s: Fields, ops: seq<Op>, n: nat)
    requires |ops| == n + 1 && AllMended(s, ops, n)
    ensures AllMended(s, ops, n + 1) <==> !BreaksAt(s, ops, n)
  {
  }

  lemma BrokenBefore(s: Fields, ops: seq<Op>, n: nat)
    requires |ops| == n + 1 && !AllMended(s, ops, n)
    ensures AllMended(s, ops, n + 1) <==> MendsAt(s, ops, n)
  {
    if MendsAt(s, ops, n) {
      assert !BreaksAt(s, ops, n);
    }
  }

  /** The building of the session factory never raises in this run. */
  predicate FactoryNeverRaises(ops: seq<Op>) {
    forall i :: 0 <= i < |ops| && ops[i].Start? ==> ops[i].start.factory.Fine?
  }

  lemma {:induction false} RunIsPaired(s: Fields, ops: seq<Op>)
    requires Sound(s) && Paired(s) && FactoryNeverRaises(ops)
    ensures Paired(Run(s, ops))
    decreases |ops|
  {
    if ops != [] {
      PairedAfterStepIff(s, ops[0]);
      RunIsSound(s, [ops[0]]);
      assert [ops[0]][1..] == [];
      assert forall i :: 0 <= i < |ops| - 1 ==> ops[1..][i] == ops[i + 1];
      RunIsPaired(OpStep(s, ops[0]), ops[1..]);
    }
  }

  /** After such a fault `connect` does nothing any more: only a shutdown mends the pair. */
  lemma {:induction false} BrokenPairPersists(s: Fields, ops: seq<Op>)
    requires s.db == DbFields(true, false)
    requires forall i :: 0 <= i < |ops| ==> !ops[i].Stop?
    ensures Run(s, ops).db == DbFields(true, false)
    decreases |ops|
  {
    if ops != [] {
      BrokenPairPersists(OpStep(s, ops[0]), ops[1..]);
    }
  }

  /** A shutdown attempts the database exactly when Redis did not raise past `except Exception`. */
  lemma DatabaseAttemptedIff(s: Fields, f: StopFaults)
    ensures Shutdown(s, f).1 <==> RedisLetsThrough(s.redis, f)
  {
  }

  /** From any reachable state a shutdown without faults leaves nothing set, and one whose only
      faults are ordinary failures of Redis still disposes of the database. */
  lemma CleanShutdown(ops: seq<Op>, f: StopFaults)
    requires f.dispose.Fine? && !f.client.Base? && !f.pool.Base?
    ensures var (s, attempted, raised) := Shutdown(Run(INITIAL, ops), f);
      attempted && raised == Fine && s.db == DbFields(false, false) &&
      (f.client.Fine? && f.pool.Fine? ==> s.redis == RedisFields(false, false))
  {
    RunIsSound(INITIAL, ops);
  }

  /** A startup ends well exactly when afterwards everything is set. */
  lemma StartupSucceedsIff(s: Fields, f: StartFaults)
    requires Sound(s) && Paired(s)
    ensures Startup(s, f).1 == Fine <==> AllSet(Startup(s, f).0)
  {
  }

  /** A shutdown leaves nothing set exactly when every closing step that is needed ends well. */
  lemma ShutdownClearsIff(s: Fields, f: StopFaults)
    requires Sound(s)
    ensures NoneSet(Shutdown(s, f).0) <==> ClosesWell(s, f)
  {
  }

  /** What a startup raises, and that Redis is left alone when the database raises. A database that
      is connected and a client that is set are not touched. */
  lemma StartupRaises(s: Fields, f: StartFaults)
    requires Sound(s) && Paired(s)
    ensures var (s', raised) := Startup(s, f);
      s'.accepting == s.accepting &&
      if !s.db.engine && !f.engine.Fine? then raised == f.engine && s' == s
      else if !s.db.engine && !f.factory.Fine? then raised == f.factory && s'.redis == s.redis
      else
        s'.db == DbFields(true, true) &&
        if s.redis.client then raised == Fine && s'.redis == s.redis
        else if !f.pool.Fine? then raised == f.pool && s'.redis == s.redis
        else if !f.client.Fine? then raised == f.client && s'.redis == RedisFields(true, false)
        else raised == Fine && s'.redis == RedisFields(true, true)
  {
  }

  /** A shutdown raises only what is no ordinary exception: from Redis, and then the database is left
      alone, or from the disposal. Everything else is swallowed. */
  lemma ShutdownRaisesIff(s: Fields, f: StopFaults)
    requires Sound(s)
    ensures var (s', attempted, raised) := Shutdown(s, f);
      (raised != Fine <==> !RedisLetsThrough(s.redis, f) || (s.db.engine && f.dispose.Base?)) &&
      (!RedisLetsThrough(s.redis, f) ==>
         s'.db == s.db && raised == if s.redis.client && f.client.Base? then f.client else f.pool) &&
      (RedisLetsThrough(s.redis, f) ==> s'.db == if f.dispose.Fine? then DbFields(false, false) else s.db) &&
      s'.accepting == s.accepting
  {
  }

  // ----- witnesses --------------------------------------------------------------------------

  /** A startup whose session factory cannot be built leaves the pair broken. */
  lemma FactoryFaultBreaksPair(tag: int)
    ensures Run(INITIAL, [Start(StartFaults(Fine, Ordinary(tag), Fine, Fine))]).db == DbFields(true, false)
  {
    var ops := [Start(StartFaults(Fine, Ordinary(tag), Fine, Fine))];
    assert ops[1..] == [];
  }

  /** A shutdown that is cancelled while it closes Redis leaves the database as it is. */
  lemma CancelledRedisKeepsEngine(tag: int)
    ensures var s := Run(INITIAL, [Start(StartFaults(Fine, Fine, Fine, Fine))]);
      var f := StopFaults(Base(tag), Fine, Fine);
      !Shutdown(s, f).1 && Shutdown(s, f).0.db == DbFields(true, true)
  {
    var ops := [Start(StartFaults(Fine, Fine, Fine, Fine))];
    assert ops[1..] == [];
  }
}
