/** Method bodies run under the context decorator: transactions, the shared event buffer and the flush. */
module EventPipeline {
  import opened Options
  import opened Counting
  import opened ServiceGraph

  datatype Exception = TypeError | PayloadTooLarge | Application(code: string)

  datatype Outcome = Done | Raised(exception: Exception)

  datatype CacheOp = CacheSet(key: string, value: string) | CacheDel(key: string)

  /** A callee without the decorator, or with it and its `withTran` option. */
  datatype Decoration = Plain | Context(withTran: bool)

  /**
   * One run of a service method, as the tree of what it does. `Call` names a property of the running
   * service; the callee's own body runs on the service found there.
   */
  datatype Body =
    | Skip
    | Emit(kind: string, payload: Option<seq<byte>>, aggregateId: Option<string>, diffId: Option<string>,
           pubSubOnly: bool)
    | Write(row: string)
    | Cache(op: CacheOp)
    | SetUser(user: Option<User>)
    | Throw(exception: Exception)
    | Seq(first: Body, second: Body)
    | Try(attempt: Body, handler: Body)
    | Call(property: nat, decoration: Decoration, callee: Body)

  datatype LogRow = LogRow(event: Event, entityId: Option<string>)

  /** What a body does, in order, whether or not it ends in an exception. */
  datatype Effect = Effect(events: seq<Event>, rows: seq<string>, cacheOps: seq<CacheOp>, user: Option<User>,
                           outcome: Outcome)
  {
    function Then(next: Effect): Effect {
      Effect(events + next.events, rows + next.rows, cacheOps + next.cacheOps, next.user, next.outcome)
    }

    /** Doing this takes the state from `before` to `after`. */
    ghost predicate Leads(before: RunState, outcome: Outcome, after: RunState) {
      && outcome == this.outcome && after.user == user
      && after.buffer == before.buffer + events
      && after.rows == before.rows + rows
      && after.cache == ApplyOps(before.cache, cacheOps)
    }
  }

  /** What a running body changes: the shared context's user and buffer, the rows written, the cache. */
  datatype RunState = RunState(user: Option<User>, buffer: seq<Event>, rows: seq<string>, cache: map<string, string>)

  ghost function View(c: RequestContext, stores: Stores): RunState
    reads c, c.trx, stores
  {
    RunState(c.user, c.eventBuffer, if c.trx == null then stores.db else c.trx.writes, stores.cache)
  }

  /**
   * The meaning of a body with every decorator ignored: a call is the callee's body run in place. A call
   * through a property that holds no service raises a TypeError.
   */
  ghost function Meaning(g: Graph, self: Service, body: Body, date: string, user: Option<User>): Effect {
    match body
    case Skip => Effect([], [], [], user, Done)
    case Emit(kind, payload, aggregateId, diffId, pubSubOnly) =>
      Effect([Event(kind, date, payload, user, aggregateId, diffId, pubSubOnly)], [], [], user, Done)
    case Write(row) => Effect([], [row], [], user, Done)
    case Cache(op) => Effect([], [], [op], user, Done)
    case SetUser(u) => Effect([], [], [], u, Done)
    case Throw(e) => Effect([], [], [], user, Raised(e))
    case Seq(first, second) =>
      var a := Meaning(g, self, first, date, user);
      if a.outcome.Raised? then a else a.Then(Meaning(g, self, second, date, a.user))
    case Try(attempt, handler) =>
      var a := Meaning(g, self, attempt, date, user);
      if a.outcome.Raised? then a.Then(Meaning(g, self, handler, date, a.user)) else a
    case Call(property, _, callee) =>
      if Has(g, self, property) then Meaning(g, g[self][property], callee, date, user)
      else Effect([], [], [], user, Raised(TypeError))
  }

  ghost predicate Has(g: Graph, self: Service, property: nat) {
    self in g && property < |g[self]| && g[self][property] != null
  }

  function ApplyOps(cache: map<string, string>, ops: seq<CacheOp>): map<string, string> {
    if ops == [] then cache
    else
      var before := ApplyOps(cache, ops[..|ops| - 1]);
      match ops[|ops| - 1]
      case CacheSet(key, value) => before[key := value]
      case CacheDel(key) => before - {key}
  }

  lemma ApplyOpsConcat(cache: map<string, string>, a: seq<CacheOp>, b: seq<CacheOp>)
    ensures ApplyOps(cache, a + b) == ApplyOps(ApplyOps(cache, a), b)
  {
    if b == [] {
      assert a + b == a;
    } else {
      assert (a + b)[..|a + b| - 1] == a + b[..|b| - 1];
      ApplyOpsConcat(cache, a, b[..|b| - 1]);
    }
  }

  lemma LeadsThen(a: Effect, b: Effect, s0: RunState, o1: Outcome, s1: RunState, o2: Outcome, s2: RunState)
    requires a.Leads(s0, o1, s1) && b.Leads(s1, o2, s2)
    ensures a.Then(b).Leads(s0, o2, s2)
  {
    ApplyOpsConcat(s0.cache, a.cacheOps, b.cacheOps);
  }

  /** What the size check of the flush decides: the first event without a payload or over the limit raises. */
  function SizeCheck(events: seq<Event>, limit: nat): Outcome {
    if events == [] then Done
    else if events[0].payload == None then Raised(TypeError)
    else if |events[0].payload.value| > limit then Raised(PayloadTooLarge)
    else SizeCheck(events[1..], limit)
  }

  /** The log rows of some events: those not marked `pubSubOnly`, in order. */
  function Rows(events: seq<Event>): seq<LogRow> {
    if events == [] then []
    else
      var last := events[|events| - 1];
      Rows(events[..|events| - 1]) + if last.pubSubOnly then [] else [RowOf(last)]
  }

  /** The row of an event; an empty id of the diff counts as none. */
  function RowOf(event: Event): LogRow {
    LogRow(event, if event.diffId == Some("") then None else event.diffId)
  }

  /** The stores outside the services: the database, the log database and the cache. */
  class Stores {
    var db: seq<string>
    var log: seq<LogRow>
    var cache: map<string, string>
    const isTest: bool
    const payloadMaxSize: nat

    constructor (isTest: bool, payloadMaxSize: nat)
      ensures db == [] && log == [] && cache == map[]
      ensures this.isTest == isTest && this.payloadMaxSize == payloadMaxSize
    {
      db, log, cache := [], [], map[];
      this.isTest, this.payloadMaxSize := isTest, payloadMaxSize;
    }
  }

  /** `self` and all it can reach hold the context `c`. */
  ghost predicate Shares(g: Graph, self: Service, c: RequestContext, members: set<Service>)
    reads g.Keys`ctx, g.Keys`properties
  {
    && Wired(g) && self in members && members <= g.Keys
    && (forall s :: s in members ==> s.ctx == c)
    && (forall s, p :: s in members && p in g[s] && p != null ==> p in members)
  }

  /** Empty the shared buffer, check every payload, and store the events that are not for subscribers only. */
  method Flush(self: Service, stores: Stores) returns (outcome: Outcome)
    requires self.ctx != null
    modifies self.ctx`eventBuffer, stores`log
    ensures self.ctx.eventBuffer == []
    ensures outcome == SizeCheck(old(self.ctx.eventBuffer), stores.payloadMaxSize)
    ensures stores.log == old(stores.log) +
                          if outcome.Done? && !stores.isTest then Rows(old(self.ctx.eventBuffer)) else []
  {
    var result := self.ctx.eventBuffer;
    self.ctx.eventBuffer := [];
    var i := 0;
    while i < |result|
      invariant 0 <= i <= |result|
      invariant SizeCheck(result, stores.payloadMaxSize) == SizeCheck(result[i..], stores.payloadMaxSize)
    {
      if result[i].payload == None {
        return Raised(TypeError);
      }
      if |result[i].payload.value| > stores.payloadMaxSize {
        return Raised(PayloadTooLarge);
      }
      assert result[i..][1..] == result[i + 1..];
      i := i + 1;
    }
    if |result| > 0 && !stores.isTest {
      stores.log := stores.log + Rows(result);
    }
    return Done;
  }

  /** A body that neither calls nor contains others. */
  predicate Single(body: Body) {
    !body.Seq? && !body.Try? && !body.Call?
  }

  method Act(c: RequestContext, body: Body, stores: Stores, ghost g: Graph, ghost self: Service)
    returns (outcome: Outcome)
    requires Single(body)
    modifies c`user, c`eventBuffer, stores`db, stores`cache
    modifies if c.trx == null then {} else {c.trx}
    ensures Meaning(g, self, body, c.date, old(c.user)).Leads(old(View(c, stores)), outcome, View(c, stores))
    ensures c.trx != null ==> stores.db == old(stores.db)
  {
    outcome := Done;
    match body
    case Emit(kind, payload, aggregateId, diffId, pubSubOnly) =>
      c.eventBuffer := c.eventBuffer + [Event(kind, c.date, payload, c.user, aggregateId, diffId, pubSubOnly)];
    case Write(row) =>
      if c.trx != null {
        c.trx.writes := c.trx.writes + [row];
      } else {
        stores.db := stores.db + [row];
      }
    case Cache(op) =>
      match op {
        case CacheSet(key, value) => stores.cache := stores.cache[key := value];
        case CacheDel(key) => stores.cache := stores.cache - {key};
      }
      assert [op][..0] == [];
    case SetUser(user) => c.user := user;
    case Throw(exception) => outcome := Raised(exception);
    case _ =>
  }

  /** Run the body of a method on a service whose context is set, as the JavaScript runtime does. */
  method Run(self: Service, body: Body, stores: Stores, ghost g: Graph, ghost members: set<Service>)
    returns (outcome: Outcome)
    requires self.ctx != null && Shares(g, self, self.ctx, members)
    modifies self.ctx`user, self.ctx`eventBuffer, stores`db, stores`cache
    modifies if self.ctx.trx == null then {} else {self.ctx.trx}
    ensures Meaning(g, self, body, self.ctx.date, old(self.ctx.user)).Leads(
              old(View(self.ctx, stores)), outcome, View(self.ctx, stores))
    ensures self.ctx.trx != null ==> stores.db == old(stores.db)
    decreases body, 0
  {
    var c := self.ctx;
    ghost var before := View(c, stores);
    match body
    case Seq(first, second) =>
      outcome := Run(self, first, stores, g, members);
      if outcome.Done? {
        outcome := RunNext(self, first, second, before, outcome, stores, g, members);
      }
    case Try(attempt, handler) =>
      outcome := Run(self, attempt, stores, g, members);
      if outcome.Raised? {
        outcome := RunNext(self, attempt, handler, before, outcome, stores, g, members);
      }
    case Call(property, decoration, callee) =>
      if property >= |self.properties| || self.properties[property] == null {
        return Raised(TypeError);
      }
      var target := self.properties[property];
      assert target in g[self];
      match decoration {
        case Plain => outcome := Run(target, callee, stores, g, members);
        case Context(withTran) =>
          ghost var user;
          outcome, user := Invoke(target, callee, withTran, c.date, stores, g, members);
      }
    case _ => outcome := Act(c, body, stores, g, self);
  }

  /** Go on with `next` after `first` has run from the state `before`. */
  method RunNext(self: Service, ghost first: Body, next: Body, ghost before: RunState, ghost mid: Outcome,
                 stores: Stores, ghost g: Graph, ghost members: set<Service>) returns (outcome: Outcome)
    requires self.ctx != null && Shares(g, self, self.ctx, members)
    requires Meaning(g, self, first, self.ctx.date, before.user).Leads(before, mid, View(self.ctx, stores))
    modifies self.ctx`user, self.ctx`eventBuffer, stores`db, stores`cache
    modifies if self.ctx.trx == null then {} else {self.ctx.trx}
    ensures var a := Meaning(g, self, first, self.ctx.date, before.user);
            a.Then(Meaning(g, self, next, self.ctx.date, a.user)).Leads(before, outcome, View(self.ctx, stores))
    ensures self.ctx.trx != null ==> stores.db == old(stores.db)
    decreases next, 1
  {
    ghost var s1 := View(self.ctx, stores);
    outcome := Run(self, next, stores, g, members);
    ghost var a := Meaning(g, self, first, self.ctx.date, before.user);
    LeadsThen(a, Meaning(g, self, next, self.ctx.date, a.user), before, mid, s1, outcome, View(self.ctx, stores));
  }

  /**
   * Set the context up on the service and run the body there. On services without a context this spreads
   * `context` to exactly those that can be reached; `startUser` is the user the body starts with.
   */
  method CallWithContext(self: Service, body: Body, context: RequestContext, stores: Stores, ghost g: Graph,
                         ghost members: set<Service>)
    returns (outcome: Outcome, ghost startUser: Option<User>)
    requires self in g && Wired(g)
    requires if self.ctx != null then self.ctx == context && Shares(g, self, context, members)
             else members == Reach(g, g.Keys, self) && forall s :: s in g ==> s.ctx == null
    modifies (if self.ctx == null then g.Keys else {})`ctx
    modifies context`user, context`eventBuffer, stores`db, stores`cache
    modifies if context.trx == null then {} else {context.trx}
    ensures self.ctx == context
    ensures old(self.ctx) != null ==> startUser == old(context.user)
    ensures old(self.ctx) == null ==>
              && Adopted(old(context.user), self.requestUser, startUser, Users(members))
              && forall s :: s in g ==> s.ctx == if s in members then context else null
    ensures Meaning(g, self, body, context.date, startUser).Leads(
              old(View(context, stores)).(user := startUser), outcome, View(context, stores))
    ensures context.trx != null ==> stores.db == old(stores.db)
    decreases body, 1
  {
    if self.ctx == null {
      assert Unmarked(g) == g.Keys;
      ReachCloses(g, self);
    }
    var _ := self.SetupContext(context, g);
    startUser := context.user;
    outcome := Run(self, body, stores, g, members);
  }

  /**
   * The decorated method. Only a call on a service without a context opens a transaction and flushes; a
   * nested call shares the context and simply runs its body. `now` is the clock at the call, and
   * `startUser` is the user the new context starts with.
   */
  method Invoke(self: Service, body: Body, withTran: bool, now: string, stores: Stores, ghost g: Graph,
                ghost members: set<Service>)
    returns (outcome: Outcome, ghost startUser: Option<User>)
    requires self in g && Wired(g)
    requires if self.ctx != null then Shares(g, self, self.ctx, members)
             else members == Reach(g, g.Keys, self) && forall s :: s in g ==> s.ctx == null
    modifies (if self.ctx == null then g.Keys else {})`ctx, (if self.ctx == null then {stores} else {})`log
    modifies stores`db, stores`cache
    modifies (if self.ctx == null then {} else {self.ctx})`user
    modifies (if self.ctx == null then {} else {self.ctx})`eventBuffer
    modifies if self.ctx == null || self.ctx.trx == null then {} else {self.ctx.trx}
    // Nested: the decorator is transparent.
    ensures old(self.ctx) != null ==>
              && Meaning(g, self, body, self.ctx.date, old(self.ctx.user)).Leads(
                   old(View(self.ctx, stores)), outcome, View(self.ctx, stores))
              && (self.ctx.trx != null ==> stores.db == old(stores.db))
    // Outermost: one new context, held by exactly the services that can be reached.
    ensures old(self.ctx) == null ==>
              && self.ctx != null && fresh(self.ctx) && self.ctx.date == now
              && Adopted(None, self.requestUser, startUser, Users(members))
              && forall s :: s in g ==> s.ctx == if s in members then self.ctx else null
    // Outermost with a transaction: all or nothing for rows and events, whatever happens to the cache.
    ensures old(self.ctx) == null && withTran ==>
              var e := Meaning(g, self, body, now, startUser);
              && outcome == (if e.outcome.Raised? then e.outcome else SizeCheck(e.events, stores.payloadMaxSize))
              && stores.log == old(stores.log) + (if outcome.Done? && !stores.isTest then Rows(e.events) else [])
              && stores.db == old(stores.db) + (if outcome.Done? then e.rows else [])
              && stores.cache == ApplyOps(old(stores.cache), e.cacheOps)
              && self.ctx.eventBuffer == (if e.outcome.Done? then [] else e.events)
    // Outermost without one: rows are written at once and nothing is ever flushed.
    ensures old(self.ctx) == null && !withTran ==>
              var e := Meaning(g, self, body, now, startUser);
              && outcome == e.outcome
              && stores.log == old(stores.log)
              && stores.db == old(stores.db) + e.rows
              && stores.cache == ApplyOps(old(stores.cache), e.cacheOps)
              && self.ctx.eventBuffer == e.events
    decreases body, 3
  {
    var current := self.ctx;
    if current != null {
      outcome, startUser := CallWithContext(self, body, current, stores, g, members);
      return;
    }
    var context := new RequestContext(now);
    if !withTran {
      outcome, startUser := CallWithContext(self, body, context, stores, g, members);
      return;
    }
    context.trx := new Transaction();
    outcome, startUser := Transact(self, body, context, stores, g, members);
  }

  /** The outermost call inside its transaction: run the body, flush, and commit if neither raised. */
  method Transact(self: Service, body: Body, context: RequestContext, stores: Stores, ghost g: Graph,
                  ghost members: set<Service>)
    returns (outcome: Outcome, ghost startUser: Option<User>)
    requires self in g && Wired(g) && members == Reach(g, g.Keys, self) && forall s :: s in g ==> s.ctx == null
    requires context.trx != null && context.trx.writes == [] && context.user == None && context.eventBuffer == []
    modifies g.Keys`ctx, context`user, context`eventBuffer, context.trx, stores`db, stores`log, stores`cache
    ensures self.ctx == context && Adopted(None, self.requestUser, startUser, Users(members))
    ensures forall s :: s in g ==> s.ctx == if s in members then context else null
    ensures var e := Meaning(g, self, body, context.date, startUser);
            && outcome == (if e.outcome.Raised? then e.outcome else SizeCheck(e.events, stores.payloadMaxSize))
            && stores.log == old(stores.log) + (if outcome.Done? && !stores.isTest then Rows(e.events) else [])
            && stores.db == old(stores.db) + (if outcome.Done? then e.rows else [])
            && stores.cache == ApplyOps(old(stores.cache), e.cacheOps)
            && context.eventBuffer == (if e.outcome.Done? then [] else e.events)
    decreases body, 2
  {
    outcome, startUser := CallWithContext(self, body, context, stores, g, members);
    ghost var e := Meaning(g, self, body, context.date, startUser);
    assert context.eventBuffer == e.events && context.trx.writes == e.rows;
    if outcome.Done? {
      outcome := FlushAndCommit(self, context.trx, stores);
    }
  }

  /** The end of a transaction whose body did not raise. */
  method FlushAndCommit(self: Service, trx: Transaction, stores: Stores) returns (outcome: Outcome)
    requires self.ctx != null
    modifies self.ctx`eventBuffer, stores`db, stores`log
    ensures self.ctx.eventBuffer == []
    ensures outcome == SizeCheck(old(self.ctx.eventBuffer), stores.payloadMaxSize)
    ensures stores.log == old(stores.log) +
                          if outcome.Done? && !stores.isTest then Rows(old(self.ctx.eventBuffer)) else []
    ensures stores.db == old(stores.db) + if outcome.Done? then trx.writes else []
  {
    outcome := Flush(self, stores);
    if outcome.Done? {
      stores.db := stores.db + trx.writes;
    }
  }

  lemma ReachCloses(g: Graph, a: Service)
    requires a in g && forall s, p :: s in g && p in g[s] && p != null ==> p in g
    ensures a in Reach(g, g.Keys, a)
    ensures forall s, p :: s in Reach(g, g.Keys, a) && p in g[s] && p != null ==> p in Reach(g, g.Keys, a)
  {
    ReachBasics(g, g.Keys, a);
    forall s, p: Service? | s in Reach(g, g.Keys, a) && p in g[s] && p != null ensures p in Reach(g, g.Keys, a) {
      var path :| IsPath(g, g.Keys, path, a, s);
      assert IsPath(g, g.Keys, path + [p], a, p);
    }
  }

  predicate CallFree(body: Body) {
    match body
    case Seq(first, second) => CallFree(first) && CallFree(second)
    case Try(attempt, handler) => CallFree(attempt) && CallFree(handler)
    case Call(_, _, _) => false
    case _ => true
  }

  /** The body with every call replaced by what it calls. */
  ghost function Inlined(g: Graph, self: Service, body: Body): Body {
    match body
    case Seq(first, second) => Seq(Inlined(g, self, first), Inlined(g, self, second))
    case Try(attempt, handler) => Try(Inlined(g, self, attempt), Inlined(g, self, handler))
    case Call(property, _, callee) =>
      if Has(g, self, property) then Inlined(g, g[self][property], callee) else Throw(TypeError)
    case _ => body
  }

  lemma {:induction false} InlinedIsCallFree(g: Graph, self: Service, body: Body)
    ensures CallFree(Inlined(g, self, body))
  {
    match body
    case Seq(first, second) =>
      InlinedIsCallFree(g, self, first);
      InlinedIsCallFree(g, self, second);
    case Try(attempt, handler) =>
      InlinedIsCallFree(g, self, attempt);
      InlinedIsCallFree(g, self, handler);
    case Call(property, _, callee) =>
      if Has(g, self, property) { InlinedIsCallFree(g, g[self][property], callee); }
    case _ =>
  }

  lemma {:induction false} InlinedMeansTheSame(g: Graph, self: Service, body: Body, h: Graph, other: Service,
                                               date: string, user: Option<User>)
    ensures Meaning(h, other, Inlined(g, self, body), date, user) == Meaning(g, self, body, date, user)
  {
    match body
    case Seq(first, second) =>
      InlinedMeansTheSame(g, self, first, h, other, date, user);
      InlinedMeansTheSame(g, self, second, h, other, date, Meaning(g, self, first, date, user).user);
    case Try(attempt, handler) =>
      InlinedMeansTheSame(g, self, attempt, h, other, date, user);
      InlinedMeansTheSame(g, self, handler, h, other, date, Meaning(g, self, attempt, date, user).user);
    case Call(property, _, callee) =>
      if Has(g, self, property) { InlinedMeansTheSame(g, g[self][property], callee, h, other, date, user); }
    case _ =>
  }

  /**
   * A decorated method and its call-free form, run as outermost calls on services of their own with stores that
   * hold the same: if they start with the same user, they end alike and leave the same rows, log and cache.
   */
  method InliningIsTransparent(self: Service, body: Body, stores: Stores, ghost g: Graph,
                               other: Service, inlined: Body, otherStores: Stores, ghost h: Graph,
                               withTran: bool, now: string)
    returns (a: Outcome, b: Outcome, ghost aUser: Option<User>, ghost bUser: Option<User>)
    requires self in g && Wired(g) && (forall s :: s in g ==> s.ctx == null)
    requires other in h && Wired(h) && (forall s :: s in h ==> s.ctx == null)
    requires g.Keys !! h.Keys && stores != otherStores
    requires inlined == Inlined(g, self, body)
    requires stores.isTest == otherStores.isTest && stores.payloadMaxSize == otherStores.payloadMaxSize
    requires stores.db == otherStores.db && stores.log == otherStores.log && stores.cache == otherStores.cache
    modifies g.Keys`ctx, h.Keys`ctx
    modifies stores`db, stores`log, stores`cache, otherStores`db, otherStores`log, otherStores`cache
    ensures CallFree(inlined)
    ensures Adopted(None, self.requestUser, aUser, Users(Reach(g, g.Keys, self)))
    ensures Adopted(None, other.requestUser, bUser, Users(Reach(h, h.Keys, other)))
    ensures aUser == bUser ==>
              && a == b && stores.db == otherStores.db
              && stores.log == otherStores.log && stores.cache == otherStores.cache
  {
    a, aUser := Invoke(self, body, withTran, now, stores, g, Reach(g, g.Keys, self));
    b, bUser := Invoke(other, inlined, withTran, now, otherStores, h, Reach(h, h.Keys, other));
    InlinedIsCallFree(g, self, body);
    InlinedMeansTheSame(g, self, body, h, other, now, aUser);
  }

  // ----- What a body does, told by the leaves that it reaches -----

  /** The leaves of a run in the order in which they are reached, and how it ends. */
  datatype Reached = Reached(leaves: seq<Body>, outcome: Outcome)

  /** A throw ends a sequence, and a handler runs after the attempt's throw; a call reaches what its callee does. */
  ghost function WhatIsReached(g: Graph, self: Service, body: Body): Reached {
    match body
    case Throw(e) => Reached([], Raised(e))
    case Seq(first, second) =>
      var a := WhatIsReached(g, self, first);
      if a.outcome.Raised? then a else var b := WhatIsReached(g, self, second); Reached(a.leaves + b.leaves, b.outcome)
    case Try(attempt, handler) =>
      var a := WhatIsReached(g, self, attempt);
      if a.outcome.Done? then a else var b := WhatIsReached(g, self, handler); Reached(a.leaves + b.leaves, b.outcome)
    case Call(property, _, callee) =>
      if Has(g, self, property) then WhatIsReached(g, g[self][property], callee) else Reached([], Raised(TypeError))
    case _ => Reached([body], Done)
  }

  /** Neither calls nor throws. */
  predicate Straight(body: Body) {
    match body
    case Seq(first, second) => Straight(first) && Straight(second)
    case Try(attempt, handler) => Straight(attempt) && Straight(handler)
    case Call(_, _, _) => false
    case Throw(_) => false
    case _ => true
  }

  /** The leaves of such a body from left to right, without those of handlers. */
  function LeavesOf(body: Body): seq<Body> {
    match body
    case Seq(first, second) => LeavesOf(first) + LeavesOf(second)
    case Try(attempt, _) => LeavesOf(attempt)
    case _ => [body]
  }

  lemma {:induction false} StraightReachesAll(g: Graph, self: Service, body: Body)
    requires Straight(body)
    ensures WhatIsReached(g, self, body) == Reached(LeavesOf(body), Done)
  {
    match body
    case Seq(first, second) =>
      StraightReachesAll(g, self, first);
      StraightReachesAll(g, self, second);
    case Try(attempt, _) => StraightReachesAll(g, self, attempt);
    case _ =>
  }

  /** What stands before a throw is reached and what stands behind it is not; the handler goes on from there. */
  lemma {:induction false} ThrowCutsOff(g: Graph, self: Service, before: Body, e: Exception, behind: Body,
                                        handler: Body)
    requires Straight(before) && Straight(handler)
    ensures var cut := Seq(before, Seq(Throw(e), behind));
            && WhatIsReached(g, self, cut) == Reached(LeavesOf(before), Raised(e))
            && WhatIsReached(g, self, Try(cut, handler)) == Reached(LeavesOf(before) + LeavesOf(handler), Done)
  {
    StraightReachesAll(g, self, before);
    StraightReachesAll(g, self, handler);
    assert WhatIsReached(g, self, Seq(Throw(e), behind)) == Reached([], Raised(e)) by {
      assert WhatIsReached(g, self, Throw(e)) == Reached([], Raised(e));
    }
    assert LeavesOf(before) + [] == LeavesOf(before);
  }

  predicate IsEmit(leaf: Body) { leaf.Emit? }

  predicate IsWrite(leaf: Body) { leaf.Write? }

  predicate IsCacheOp(leaf: Body) { leaf.Cache? }

  predicate IsLogged(event: Event) { !event.pubSubOnly }

  /** The user in force after the leaves. */
  function UserAfter(leaves: seq<Body>, user: Option<User>): Option<User> {
    if leaves == [] then user
    else
      var last := leaves[|leaves| - 1];
      if last.SetUser? then last.user else UserAfter(leaves[..|leaves| - 1], user)
  }

  /** The event of an Emit leaf: its own data, the context's date and the user then in force. */
  function EventOf(leaf: Body, date: string, user: Option<User>): Event
    requires leaf.Emit?
  {
    Event(leaf.kind, date, leaf.payload, user, leaf.aggregateId, leaf.diffId, leaf.pubSubOnly)
  }

  /** All that the leaves do. */
  function EffectOf(r: Reached, date: string, user: Option<User>): Effect {
    Effect(EventsOf(r.leaves, date, user), RowsOf(r.leaves), CacheOpsOf(r.leaves), UserAfter(r.leaves, user), r.outcome)
  }

  function EventsOf(leaves: seq<Body>, date: string, user: Option<User>): seq<Event> {
    if leaves == [] then []
    else
      var n := |leaves| - 1;
      EventsOf(leaves[..n], date, user) +
      if leaves[n].Emit? then [EventOf(leaves[n], date, UserAfter(leaves[..n], user))] else []
  }

  function RowsOf(leaves: seq<Body>): seq<string> {
    if leaves == [] then []
    else
      var n := |leaves| - 1;
      RowsOf(leaves[..n]) + if leaves[n].Write? then [leaves[n].row] else []
  }

  function CacheOpsOf(leaves: seq<Body>): seq<CacheOp> {
    if leaves == [] then []
    else
      var n := |leaves| - 1;
      CacheOpsOf(leaves[..n]) + if leaves[n].Cache? then [leaves[n].op] else []
  }

  lemma ConcatPrefix(a: seq<Body>, b: seq<Body>)
    ensures b == [] ==> a + b == a
    ensures b != [] ==> (a + b)[..|a + b| - 1] == a + b[..|b| - 1] && (a + b)[|a + b| - 1] == b[|b| - 1]
  {
  }

  lemma {:induction false} UserAfterConcat(a: seq<Body>, b: seq<Body>, user: Option<User>)
    ensures UserAfter(a + b, user) == UserAfter(b, UserAfter(a, user))
  {
    ConcatPrefix(a, b);
    if b != [] { UserAfterConcat(a, b[..|b| - 1], user); }
  }

  lemma {:induction false} EventsOfConcat(a: seq<Body>, b: seq<Body>, date: string, user: Option<User>)
    ensures EventsOf(a + b, date, user) == EventsOf(a, date, user) + EventsOf(b, date, UserAfter(a, user))
  {
    ConcatPrefix(a, b);
    if b != [] {
      EventsOfConcat(a, b[..|b| - 1], date, user);
      UserAfterConcat(a, b[..|b| - 1], user);
    }
  }

  lemma {:induction false} RowsOfConcat(a: seq<Body>, b: seq<Body>)
    ensures RowsOf(a + b) == RowsOf(a) + RowsOf(b)
  {
    ConcatPrefix(a, b);
    if b != [] { RowsOfConcat(a, b[..|b| - 1]); }
  }

  lemma {:induction false} CacheOpsOfConcat(a: seq<Body>, b: seq<Body>)
    ensures CacheOpsOf(a + b) == CacheOpsOf(a) + CacheOpsOf(b)
  {
    ConcatPrefix(a, b);
    if b != [] { CacheOpsOfConcat(a, b[..|b| - 1]); }
  }

  lemma {:induction false} EffectOfConcat(a: Reached, b: Reached, date: string, user: Option<User>)
    ensures EffectOf(a, date, user).Then(EffectOf(b, date, UserAfter(a.leaves, user))) ==
            EffectOf(Reached(a.leaves + b.leaves, b.outcome), date, user)
  {
    UserAfterConcat(a.leaves, b.leaves, user);
    EventsOfConcat(a.leaves, b.leaves, date, user);
    RowsOfConcat(a.leaves, b.leaves);
    CacheOpsOfConcat(a.leaves, b.leaves);
  }

  /** The user in force is that of the last leaf that sets one, or else the one at the start. */
  lemma {:induction false} LastSetUserDecides(leaves: seq<Body>, user: Option<User>, k: int)
    requires -1 <= k < |leaves| && (k >= 0 ==> leaves[k].SetUser?)
    requires forall l :: k < l < |leaves| ==> !leaves[l].SetUser?
    ensures UserAfter(leaves, user) == if k < 0 then user else leaves[k].user
  {
    if k < |leaves| - 1 { LastSetUserDecides(leaves[..|leaves| - 1], user, k); }
  }

  /** Position by position, the events are those of the Emit leaves, with the user then in force. */
  lemma {:induction false} EventsAreOfEmits(leaves: seq<Body>, date: string, user: Option<User>)
    ensures |EventsOf(leaves, date, user)| == Count(leaves, IsEmit)
    ensures forall i :: 0 <= i < |leaves| && leaves[i].Emit? ==>
              && Count(leaves[..i], IsEmit) < |EventsOf(leaves, date, user)|
              && EventsOf(leaves, date, user)[Count(leaves[..i], IsEmit)] ==
                 EventOf(leaves[i], date, UserAfter(leaves[..i], user))
  {
    if leaves != [] {
      var n := |leaves| - 1;
      EventsAreOfEmits(leaves[..n], date, user);
      forall i | 0 <= i < n ensures leaves[..n][..i] == leaves[..i] && leaves[..n][i] == leaves[i] {}
    }
  }

  /** Likewise the rows are those of the Write leaves. */
  lemma {:induction false} RowsAreOfWrites(leaves: seq<Body>)
    ensures |RowsOf(leaves)| == Count(leaves, IsWrite)
    ensures forall i :: 0 <= i < |leaves| && leaves[i].Write? ==>
              && Count(leaves[..i], IsWrite) < |RowsOf(leaves)|
              && RowsOf(leaves)[Count(leaves[..i], IsWrite)] == leaves[i].row
  {
    if leaves != [] {
      var n := |leaves| - 1;
      RowsAreOfWrites(leaves[..n]);
      forall i | 0 <= i < n ensures leaves[..n][..i] == leaves[..i] && leaves[..n][i] == leaves[i] {}
    }
  }

  /** And the cache operations are those of the Cache leaves. */
  lemma {:induction false} CacheOpsAreOfLeaves(leaves: seq<Body>)
    ensures |CacheOpsOf(leaves)| == Count(leaves, IsCacheOp)
    ensures forall i :: 0 <= i < |leaves| && leaves[i].Cache? ==>
              && Count(leaves[..i], IsCacheOp) < |CacheOpsOf(leaves)|
              && CacheOpsOf(leaves)[Count(leaves[..i], IsCacheOp)] == leaves[i].op
  {
    if leaves != [] {
      var n := |leaves| - 1;
      CacheOpsAreOfLeaves(leaves[..n]);
      forall i | 0 <= i < n ensures leaves[..n][..i] == leaves[..i] && leaves[..n][i] == leaves[i] {}
    }
  }

  lemma {:induction false} EffectOfLeaf(g: Graph, self: Service, leaf: Body, date: string, user: Option<User>)
    requires Single(leaf) && !leaf.Throw?
    ensures Meaning(g, self, leaf, date, user) == EffectOf(Reached([leaf], Done), date, user)
  {
    assert [leaf][..0] == [];
    assert UserAfter([leaf], user) == if leaf.SetUser? then leaf.user else user;
    assert EventsOf([leaf], date, user) == if leaf.Emit? then [EventOf(leaf, date, user)] else [];
    assert RowsOf([leaf]) == if leaf.Write? then [leaf.row] else [];
    assert CacheOpsOf([leaf]) == if leaf.Cache? then [leaf.op] else [];
  }

  /** The leaves reached by a body decide its meaning. */
  ghost predicate IsOfLeaves(g: Graph, self: Service, body: Body, date: string, user: Option<User>) {
    Meaning(g, self, body, date, user) == EffectOf(WhatIsReached(g, self, body), date, user)
  }

  lemma {:induction false} SeqIsOfLeaves(g: Graph, self: Service, first: Body, second: Body, date: string,
                                         user: Option<User>)
    requires IsOfLeaves(g, self, first, date, user)
    requires IsOfLeaves(g, self, second, date, UserAfter(WhatIsReached(g, self, first).leaves, user))
    ensures IsOfLeaves(g, self, Seq(first, second), date, user)
  {
    var a, b := WhatIsReached(g, self, first), WhatIsReached(g, self, second);
    EffectOfConcat(a, b, date, user);
  }

  lemma {:induction false} TryIsOfLeaves(g: Graph, self: Service, attempt: Body, handler: Body, date: string,
                                         user: Option<User>)
    requires IsOfLeaves(g, self, attempt, date, user)
    requires IsOfLeaves(g, self, handler, date, UserAfter(WhatIsReached(g, self, attempt).leaves, user))
    ensures IsOfLeaves(g, self, Try(attempt, handler), date, user)
  {
    var a, b := WhatIsReached(g, self, attempt), WhatIsReached(g, self, handler);
    EffectOfConcat(a, b, date, user);
  }

  /**
   * A body's meaning is that of the leaves it reaches: the events are those of the Emit leaves, the rows those of
   * the Write leaves, the cache operations those of the Cache leaves, each once and in order.
   */
  lemma {:induction false} MeaningIsOfLeaves(g: Graph, self: Service, body: Body, date: string, user: Option<User>)
    ensures IsOfLeaves(g, self, body, date, user)
  {
    match body
    case Seq(first, second) =>
      MeaningIsOfLeaves(g, self, first, date, user);
      MeaningIsOfLeaves(g, self, second, date, UserAfter(WhatIsReached(g, self, first).leaves, user));
      SeqIsOfLeaves(g, self, first, second, date, user);
    case Try(attempt, handler) =>
      MeaningIsOfLeaves(g, self, attempt, date, user);
      MeaningIsOfLeaves(g, self, handler, date, UserAfter(WhatIsReached(g, self, attempt).leaves, user));
      TryIsOfLeaves(g, self, attempt, handler, date, user);
    case Call(property, _, callee) =>
      if Has(g, self, property) { MeaningIsOfLeaves(g, g[self][property], callee, date, user); }
    case Throw(_) =>
    case _ => EffectOfLeaf(g, self, body, date, user);
  }

  /**
   * The outermost call with a transaction: if nothing is raised and the sizes fit, then the log grows by the rows
   * of the Emit leaves that were reached and the database by those of the Write leaves, and else neither does.
   */
  method OutermostCallKeepsLeaves(self: Service, body: Body, now: string, stores: Stores, ghost g: Graph)
    returns (outcome: Outcome, ghost user: Option<User>)
    requires self in g && Wired(g) && forall s :: s in g ==> s.ctx == null
    modifies g.Keys`ctx, stores`db, stores`log, stores`cache
    ensures Adopted(None, self.requestUser, user, Users(Reach(g, g.Keys, self)))
    ensures var r := WhatIsReached(g, self, body);
            && outcome == (if r.outcome.Raised? then r.outcome
                           else SizeCheck(EventsOf(r.leaves, now, user), stores.payloadMaxSize))
            && stores.log == old(stores.log) +
                             (if outcome.Done? && !stores.isTest then Rows(EventsOf(r.leaves, now, user)) else [])
            && stores.db == old(stores.db) + (if outcome.Done? then RowsOf(r.leaves) else [])
            && stores.cache == ApplyOps(old(stores.cache), CacheOpsOf(r.leaves))
  {
    outcome, user := Invoke(self, body, true, now, stores, g, Reach(g, g.Keys, self));
    MeaningIsOfLeaves(g, self, body, now, user);
  }

  // ----- Cache operations, sizes and rows -----

  function KeyOf(op: CacheOp): string {
    match op
    case CacheSet(key, _) => key
    case CacheDel(key) => key
  }

  /** A key holds what the last operation on it says: the value that was set, or nothing after a removal. */
  lemma {:induction false} LastOpDecides(cache: map<string, string>, ops: seq<CacheOp>, key: string, k: int)
    requires -1 <= k < |ops| && (k >= 0 ==> KeyOf(ops[k]) == key)
    requires forall l :: k < l < |ops| ==> KeyOf(ops[l]) != key
    ensures var after := ApplyOps(cache, ops);
            if k < 0 then (key in after <==> key in cache) && (key in cache ==> after[key] == cache[key])
            else if ops[k].CacheDel? then key !in after
            else key in after && after[key] == ops[k].value
  {
    if k < |ops| - 1 { LastOpDecides(cache, ops[..|ops| - 1], key, k); }
  }

  /** Event i is the first that does not pass. */
  predicate FirstStopped(events: seq<Event>, limit: nat, i: nat) {
    && i < |events| && (events[i].payload.Some? ==> |events[i].payload.value| > limit)
    && forall j :: 0 <= j < i ==> events[j].payload.Some? && |events[j].payload.value| <= limit
  }

  /** The first event that does not pass decides which exception stops the flush. */
  lemma {:induction false} FirstStoppedDecides(events: seq<Event>, limit: nat, i: nat)
    requires FirstStopped(events, limit, i)
    ensures SizeCheck(events, limit) == Raised(if events[i].payload.None? then TypeError else PayloadTooLarge)
  {
    if i > 0 {
      assert forall j :: 0 <= j < |events| - 1 ==> events[1..][j] == events[j + 1];
      FirstStoppedDecides(events[1..], limit, i - 1);
    }
  }

  /** The flush lets a buffer pass exactly when every payload is present and within the limit. */
  lemma {:induction false} SizeCheckExact(events: seq<Event>, limit: nat)
    ensures SizeCheck(events, limit) == Done <==>
            forall i :: 0 <= i < |events| ==> events[i].payload.Some? && |events[i].payload.value| <= limit
  {
    if events != [] {
      SizeCheckExact(events[1..], limit);
      assert forall i :: 0 < i < |events| ==> events[i] == events[1..][i - 1];
    }
  }

  /**
   * The log rows are those of the events not marked `pubSubOnly`: each of them once, and in emission order. An
   * empty id of the diff counts as none.
   */
  lemma {:induction false} LoggedOnceInOrder(events: seq<Event>)
    ensures |Rows(events)| == Count(events, IsLogged)
    ensures forall i :: 0 <= i < |events| && !events[i].pubSubOnly ==>
              && Count(events[..i], IsLogged) < |Rows(events)|
              && IsRowOf(Rows(events)[Count(events[..i], IsLogged)], events[i])
  {
    if events != [] {
      var n := |events| - 1;
      LoggedOnceInOrder(events[..n]);
      forall i | 0 <= i < n ensures events[..n][..i] == events[..i] && events[..n][i] == events[i] {}
    }
  }

  predicate IsRowOf(row: LogRow, event: Event) {
    && row.event == event
    && (row.entityId == None <==> event.diffId == None || event.diffId == Some(""))
    && (row.entityId.Some? ==> row.entityId == event.diffId)
  }
}
