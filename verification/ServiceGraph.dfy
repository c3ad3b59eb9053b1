/** The graph of request-scoped services and the walk that spreads one context through it. */
module ServiceGraph {
  import opened Options

  newtype byte = b: int | 0 <= b < 256

  datatype User = User(id: string, login: string)

  /** `payload` holds the UTF-8 bytes of the payload's JSON text; it is None when the payload is undefined. */
  datatype Event = Event(kind: string, created: string, payload: Option<seq<byte>>, user: Option<User>,
                         aggregateId: Option<string>, diffId: Option<string>, pubSubOnly: bool)

  /** A database transaction: the rows written through it and not yet committed. */
  class Transaction {
    var writes: seq<string>

    constructor ()
      ensures writes == []
    {
      writes := [];
    }
  }

  /** The one object that every service of a request shares. */
  class RequestContext {
    const date: string
    var trx: Transaction?
    var user: Option<User>
    var eventBuffer: seq<Event>

    constructor (date: string)
      ensures this.date == date && trx == null && user == None && eventBuffer == []
    {
      this.date := date;
      trx, user, eventBuffer := null, None, [];
    }
  }

  /** The references between services at one moment: for each service, the values of its properties in key order. */
  type Graph = map<Service, seq<Service?>>

  class Service {
    var ctx: RequestContext?
    /** The service's properties in key order; null stands for a property that is not a service. */
    var properties: seq<Service?>
    /** The user of the HTTP request, when there is one. */
    const requestUser: Option<User>

    constructor (requestUser: Option<User>)
      ensures ctx == null && properties == [] && this.requestUser == requestUser
    {
      ctx, properties := null, [];
      this.requestUser := requestUser;
    }

    /**
     * Give this service and every service below it the given context. The walk stops at a service that
     * already has one, so it ends on cyclic graphs, and it reaches a service exactly when there is a path
     * to it on which no service was marked.
     */
    method SetupContext(context: RequestContext, ghost g: Graph) returns (r: RequestContext)
      requires this in g && Wired(g)
      modifies (if ctx == null then g.Keys else {})`ctx, (if ctx == null then {context} else {})`user
      ensures ctx == r
      ensures old(ctx) != null ==> r == old(ctx) && context.user == old(context.user)
      ensures forall s :: s in g ==> s.ctx == if s in old(Reach(g, Unmarked(g), this)) then context else old(s.ctx)
      ensures old(ctx) == null ==>
                Adopted(old(context.user), requestUser, context.user, Users(old(Reach(g, Unmarked(g), this))))
      decreases |Unmarked(g)|, 0
    {
      ghost var white := Unmarked(g);
      ReachBasics(g, white, this);
      if ctx != null {
        return ctx;
      }
      if context.user == None {
        context.user := requestUser;
      }
      ctx := context;
      ghost var reached := {this};
      var i := 0;
      while i < |properties|
        invariant 0 <= i <= |properties| == |g[this]|
        invariant forall s :: s in g ==> s.ctx == if s in reached then context else old(s.ctx)
        invariant Walked(g, white, reached, this, i)
        invariant Adopted(old(context.user), requestUser, context.user, Users(reached))
      {
        var property := properties[i];
        if property != null {
          WalkLeavesLess(g, white, reached, this, i);
          Follow(i, property, context, g, white, reached, old(context.user));
          reached := reached + Reach(g, white - reached, property);
        }
        i := i + 1;
      }
      WalkEnds(g, white, reached, this);
      return context;
    }

    /** The walk's step into property i, which continues what it has reached. */
    method Follow(ghost i: nat, property: Service, context: RequestContext, ghost g: Graph,
                  ghost white: set<Service>, ghost reached: set<Service>, ghost first: Option<User>)
      requires this in g && Wired(g) && i < |g[this]| && g[this][i] == property
      requires Walked(g, white, reached, this, i) && Unmarked(g) == white - reached
      requires Adopted(first, requestUser, context.user, Users(reached))
      modifies g.Keys`ctx, context`user
      ensures forall s :: s in g ==> s.ctx == if s in Reach(g, white - reached, property) then context else old(s.ctx)
      ensures Walked(g, white, reached + Reach(g, white - reached, property), this, i + 1)
      ensures Adopted(first, requestUser, context.user, Users(reached + Reach(g, white - reached, property)))
      decreases |white - reached|, 1
    {
      ghost var user, found := context.user, Reach(g, white - reached, property);
      assert property in g[this];
      ReachBasics(g, white - reached, property);
      var _ := property.SetupContext(context, g);
      AdoptMore(first, requestUser, user, reached, property, context.user, found);
      WalkOn(g, white, reached, this, i);
    }
  }

  /** The request users of some services. */
  ghost function Users(services: set<Service>): set<User> {
    set s | s in services && s.requestUser.Some? :: s.requestUser.value
  }

  /** `after` is `before` when there was one, else `own`, else one of `users`, if there are any. */
  ghost predicate Adopted(before: Option<User>, own: Option<User>, after: Option<User>, users: set<User>) {
    if before.Some? then after == before
    else if own.Some? then after == own
    else if after.Some? then after.value in users
    else users == {}
  }

  lemma AdoptMore(before: Option<User>, own: Option<User>, mid: Option<User>, reached: set<Service>,
                  child: Service, after: Option<User>, found: set<Service>)
    requires Adopted(before, own, mid, Users(reached))
    requires if child in found then Adopted(mid, child.requestUser, after, Users(found))
             else after == mid && found == {}
    ensures Adopted(before, own, after, Users(reached + found))
  {
    assert Users(reached + found) == Users(reached) + Users(found);
    if child in found && child.requestUser.Some? { assert child.requestUser.value in Users(found); }
  }

  /** `g` is the current state of the references of its services, and no reference leaves it. */
  ghost predicate Wired(g: Graph)
    reads g.Keys`properties
  {
    forall s :: s in g ==> s.properties == g[s] && forall c :: c in g[s] && c != null ==> c in g
  }

  ghost function Unmarked(g: Graph): set<Service>
    reads g.Keys`ctx
  {
    set s | s in g && s.ctx == null
  }

  /** `p` is a path from `a` to `b` all of whose services are in `within`. */
  ghost predicate IsPath(g: Graph, within: set<Service>, older p: seq<Service>, a: Service, b: Service) {
    && |p| > 0 && p[0] == a && p[|p| - 1] == b
    && (forall i :: 0 <= i < |p| ==> p[i] in within && p[i] in g)
    && (forall i :: 0 <= i < |p| - 1 ==> p[i + 1] in g[p[i]])
  }

  /** The services that can be reached from `a` on a path inside `within`. */
  ghost function Reach(g: Graph, within: set<Service>, a: Service): set<Service> {
    set s | s in g && exists p :: IsPath(g, within, p, a, s)
  }

  lemma ReachBasics(g: Graph, within: set<Service>, a: Service)
    ensures Reach(g, within, a) <= within
    ensures a in g && a in within ==> a in Reach(g, within, a)
    ensures a !in within ==> Reach(g, within, a) == {}
  {
    if a in g && a in within { assert IsPath(g, within, [a], a, a); }
  }

  /**
   * The walk from `a` has been through the first i properties of `a`: what it reached is reachable, and
   * every unmarked service referred to from there, or by these properties, has been reached too.
   */
  ghost predicate Walked(g: Graph, white: set<Service>, reached: set<Service>, a: Service, i: nat) {
    && white <= g.Keys && a in white && i <= |g[a]|
    && a in reached && reached <= Reach(g, white, a)
    && (forall s, c :: s in reached && s != a && c in g[s] && c in white ==> c in reached)
    && (forall j :: 0 <= j < i && g[a][j] in white ==> g[a][j] in reached)
  }

  lemma WalkLeavesLess(g: Graph, white: set<Service>, reached: set<Service>, a: Service, i: nat)
    requires Walked(g, white, reached, a, i)
    ensures |white - reached| < |white|
  {
    var rest := white - reached;
    assert a in white - rest;
    assert rest + (white - rest) == white;
  }

  /** What one recursive call adds continues the walk. */
  lemma WalkOn(g: Graph, white: set<Service>, reached: set<Service>, a: Service, i: nat)
    requires Walked(g, white, reached, a, i) && i < |g[a]| && g[a][i] != null
    ensures Walked(g, white, reached + Reach(g, white - reached, g[a][i]), a, i + 1)
  {
    var child: Service, rest := g[a][i], white - reached;
    var found := Reach(g, rest, child);
    ReachBasics(g, rest, child);
    forall s | s in found ensures s in Reach(g, white, a) {
      ReachFromParent(g, white, rest, a, child, s);
    }
    forall s, c | s in found && c in g[s] && c in rest && c in g ensures c in found {
      var p :| IsPath(g, rest, p, child, s);
      assert IsPath(g, rest, p + [c], child, c);
    }
  }

  lemma ReachFromParent(g: Graph, white: set<Service>, rest: set<Service>, a: Service, child: Service, s: Service)
    requires a in white && a in g && child in g[a] && rest <= white && s in Reach(g, rest, child)
    ensures s in Reach(g, white, a)
  {
    var p :| IsPath(g, rest, p, child, s);
    var q := [a] + p;
    forall i | 0 <= i < |q| - 1 ensures q[i + 1] in g[q[i]] {
      if i > 0 { assert q[i] == p[i - 1] && q[i + 1] == p[i]; }
    }
    assert IsPath(g, white, q, a, s);
  }

  /** When it has been through all properties, it has reached all that is reachable. */
  lemma WalkEnds(g: Graph, white: set<Service>, reached: set<Service>, a: Service)
    requires a in g && Walked(g, white, reached, a, |g[a]|)
    ensures reached == Reach(g, white, a)
  {
    forall b | b in Reach(g, white, a) ensures b in reached {
      var p :| IsPath(g, white, p, a, b);
      for i := 1 to |p|
        invariant forall k :: 0 <= k < i ==> p[k] in reached
      {
        assert p[i] in g[p[i - 1]];
      }
    }
  }
}
