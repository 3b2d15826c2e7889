/** The dependency check of the capability registry, and the closure of a set of requirements. */
module CapabilityGraph {
  import opened Prelude

  type Id = string

  /** Declared dependencies of each registered capability. */
  type Graph = map<Id, seq<Id>>

  datatype Verdict = Accepted | DependencyMissing(id: Id) | DependencyCycle(id: Id)

  /** Consecutive elements are linked by declared dependencies. */
  predicate Path(g: Graph, p: seq<Id>) {
    forall i :: 0 <= i < |p| - 1 ==> p[i] in g && p[i + 1] in g[p[i]]
  }

  predicate Cycle(g: Graph, p: seq<Id>) {
    |p| >= 2 && Path(g, p) && p[0] == p[|p| - 1]
  }

  ghost predicate Cyclic(g: Graph) {
    exists p :: Cycle(g, p)
  }

  predicate AllKnown(g: Graph) {
    forall c, d :: c in g && d in g[c] ==> d in g
  }

  /** Each element's dependencies come before it. */
  predicate Finished(g: Graph, order: seq<Id>) {
    forall i :: 0 <= i < |order| ==> order[i] in g && forall d :: d in g[order[i]] ==> d in order[..i]
  }

  /** A finish order of the whole graph: the rank function acceptance yields. */
  predicate Ranking(g: Graph, order: seq<Id>) {
    Finished(g, order) && forall c :: c in g ==> c in order
  }

  function Rank(order: seq<Id>, c: Id): (i: nat)
    requires c in order
    ensures i < |order| && order[i] == c && c !in order[..i]
  {
    if order[0] == c then 0 else 1 + Rank(order[1..], c)
  }

  lemma {:induction false} RankIsFirst(order: seq<Id>, c: Id, j: nat)
    requires j < |order| && order[j] == c
    ensures Rank(order, c) <= j
  {
    if order[0] != c {
      RankIsFirst(order[1..], c, j - 1);
    }
  }

  /** Along a path inside a ranking the rank drops at every step. */
  lemma {:induction false} PathDescends(g: Graph, order: seq<Id>, p: seq<Id>)
    requires Ranking(g, order) && Path(g, p) && |p| >= 2
    ensures p[0] in order && p[|p| - 1] in order
    ensures Rank(order, p[|p| - 1]) < Rank(order, p[0])
  {
    var i := Rank(order, p[0]);
    assert p[1] in order[..i];
    var j :| 0 <= j < i && order[j] == p[1];
    RankIsFirst(order, p[1], j);
    if |p| > 2 {
      PathDescends(g, order, p[1..]);
    }
  }

  lemma RankedIsAcyclic(g: Graph, order: seq<Id>)
    requires Ranking(g, order)
    ensures AllKnown(g) && !Cyclic(g)
  {
    forall p | Cycle(g, p)
      ensures false
    {
      PathDescends(g, order, p);
    }
    forall c, d | c in g && d in g[c]
      ensures d in g
    {
      var i :| 0 <= i < |order| && order[i] == c;
      var j :| 0 <= j < i && order[j] == d;
    }
  }

  /** A cycle that starts at `c` and runs through `among` only. */
  ghost predicate CycleAt(g: Graph, c: Id, among: set<Id>) {
    exists p :: Cycle(g, p) && p[0] == c && forall x :: x in p ==> x in among
  }

  /** An id that some registered capability depends on but that is not registered. */
  ghost predicate UnknownDependency(g: Graph, d: Id) {
    d !in g && exists c :: c in g && d in g[c]
  }

  /** Closing the stack at an active element gives a cycle through the active set. */
  lemma StackCycle(g: Graph, stack: seq<Id>, c: Id, active: set<Id>)
    requires Path(g, stack + [c]) && c in stack && forall x :: x in stack ==> x in active
    ensures CycleAt(g, c, active)
  {
    var i :| 0 <= i < |stack| && stack[i] == c;
    var p := (stack + [c])[i..];
    assert Path(g, p) && p[0] == c && p[|p| - 1] == c;
    assert Cycle(g, p);
  }

  // ----- the recursive check -------------------------------------------------------------

  class Checker {
    const graph: Graph
    var active: set<Id>
    var done: set<Id>
    /** The active elements in call order, and the done ones in finish order. */
    ghost var stack: seq<Id>
    ghost var finished: seq<Id>

    constructor (graph: Graph)
      ensures this.graph == graph && Valid() && stack == [] && finished == []
    {
      this.graph := graph;
      active, done := {}, {};
      stack, finished := [], [];
    }

    ghost predicate Valid()
      reads this
    {
      && (forall c :: c in active <==> c in stack)
      && (forall c :: c in done <==> c in finished)
      && active <= graph.Keys && active !! done
      && Path(graph, stack) && Finished(graph, finished)
    }

    method Visit(cid: Id) returns (r: Verdict)
      requires Valid() && Path(graph, stack + [cid])
      requires stack == [] ==> cid in graph
      modifies this
      ensures r.Accepted? ==> Valid() && stack == old(stack) && active == old(active)
      ensures r.Accepted? ==> cid in done && old(done) <= done
      ensures r.DependencyMissing? ==> UnknownDependency(graph, r.id)
      ensures r.DependencyCycle? ==> CycleAt(graph, r.id, active)
      decreases graph.Keys - active
    {
      if cid !in graph {
        assert (stack + [cid])[|stack| - 1] in graph && (stack + [cid])[|stack|] == cid;
        return DependencyMissing(cid);
      }
      if cid in active {
        StackCycle(graph, stack, cid, active);
        return DependencyCycle(cid);
      }
      if cid in done {
        return Accepted;
      }
      ghost var outer := stack;
      active := active + {cid};
      stack := stack + [cid];
      var deps := graph[cid];
      for n := 0 to |deps|
        invariant Valid() && stack == outer + [cid] && active == old(active) + {cid}
        invariant old(done) <= done
        invariant forall k :: 0 <= k < n ==> deps[k] in done
      {
        ExtendPath(graph, stack, deps[n]);
        var sub := Visit(deps[n]);
        if !sub.Accepted? {
          return sub;
        }
      }
      active := active - {cid};
      done := done + {cid};
      stack := outer;
      FinishOne(graph, finished, cid);
      finished := finished + [cid];
      PathInit(graph, outer, cid);
      r := Accepted;
    }
  }

  lemma ExtendPath(g: Graph, stack: seq<Id>, d: Id)
    requires Path(g, stack) && stack != [] && stack[|stack| - 1] in g && d in g[stack[|stack| - 1]]
    ensures Path(g, stack + [d])
  {
  }

  lemma PathInit(g: Graph, stack: seq<Id>, c: Id)
    requires Path(g, stack + [c])
    ensures Path(g, stack)
  {
    forall i | 0 <= i < |stack| - 1
      ensures stack[i] in g && stack[i + 1] in g[stack[i]]
    {
      assert (stack + [c])[i] == stack[i] && (stack + [c])[i + 1] == stack[i + 1];
    }
  }

  lemma FinishOne(g: Graph, order: seq<Id>, c: Id)
    requires Finished(g, order) && c in g && forall d :: d in g[c] ==> d in order
    ensures Finished(g, order + [c])
  {
    var longer := order + [c];
    forall i | 0 <= i < |longer|
      ensures longer[i] in g && forall d :: d in g[longer[i]] ==> d in longer[..i]
    {
      assert i < |order| ==> longer[..i] == order[..i];
      assert i == |order| ==> longer[..i] == order;
    }
  }

  /**
   * The registry check visits the ids in registry order. It accepts exactly the graphs in which
   * every dependency is known and there is no cycle, and then yields a ranking. A missing id it
   * reports is an unregistered dependency of a registered capability, and a cycle id lies on a cycle.
   */
  method ValidateDependencyGraph(g: Graph, ids: seq<Id>) returns (r: Verdict, ghost order: seq<Id>)
    requires forall c :: c in ids <==> c in g
    ensures r.Accepted? <==> AllKnown(g) && !Cyclic(g)
    ensures r.Accepted? ==> Ranking(g, order)
    ensures r.DependencyMissing? ==> UnknownDependency(g, r.id)
    ensures r.DependencyCycle? ==> CycleAt(g, r.id, g.Keys)
  {
    var checker := new Checker(g);
    order := [];
    for n := 0 to |ids|
      invariant fresh(checker) && checker.graph == g && checker.Valid() && checker.stack == []
      invariant forall k :: 0 <= k < n ==> ids[k] in checker.done
    {
      var sub := checker.Visit(ids[n]);
      if !sub.Accepted? {
        return sub, [];
      }
    }
    order := checker.finished;
    RankedIsAcyclic(g, order);
    r := Accepted;
  }

  // ----- closure ------------------------------------------------------------------------------

  /** Declared dependencies of registered members are members; unregistered members have none. */
  predicate Closed(g: Graph, s: set<Id>) {
    forall c, d :: c in s && c in g && d in g[c] ==> d in s
  }

  /** The least set that contains the seeds and is closed under declared dependencies. */
  ghost predicate LeastClosure(g: Graph, seeds: set<Id>, s: set<Id>) {
    && seeds <= s && Closed(g, s)
    && forall t: set<Id> :: seeds <= t && Closed(g, t) ==> s <= t
  }

  function AllDependencies(g: Graph): set<Id> {
    set c, d | c in g && d in g[c] :: d
  }

  /** `list(required)`: some enumeration of the set. */
  method Enumerate(s: set<Id>) returns (l: seq<Id>)
    ensures forall c :: c in l <==> c in s
  {
    l := [];
    var rest := s;
    while rest != {}
      invariant rest <= s && forall c :: c in l <==> c in s && c !in rest
      decreases rest
    {
      var c :| c in rest;
      l := l + [c];
      rest := rest - {c};
    }
  }

  /** Members of `required` whose dependencies have been added. */
  ghost predicate Handled(g: Graph, required: set<Id>, pending: seq<Id>) {
    forall c, d :: c in required && c !in pending && c in g && d in g[c] ==> d in required
  }

  /** One turn of the worklist loop: adds the dependencies of `cid` that are not required yet. */
  method AddDependencies(g: Graph, cid: Id, required: set<Id>, pending: seq<Id>)
    returns (required': set<Id>, pending': seq<Id>)
    requires cid in required && Handled(g, required, pending + [cid])
    ensures required <= required' <= required + AllDependencies(g)
    ensures (forall c :: c in pending ==> c in pending') && (forall c :: c in pending' ==> c in pending || c in required')
    ensures Handled(g, required', pending')
    ensures required' == required ==> pending' == pending
    ensures forall t: set<Id> :: required <= t && Closed(g, t) ==> required' <= t
  {
    required', pending' := required, pending;
    if cid !in g {
      return;
    }
    var deps := g[cid];
    for n := 0 to |deps|
      invariant required <= required' <= required + AllDependencies(g)
      invariant (forall c :: c in pending ==> c in pending') && (forall c :: c in pending' ==> c in pending || c in required')
      invariant Handled(g, required', pending' + [cid])
      invariant required' == required ==> pending' == pending
      invariant forall k :: 0 <= k < n ==> deps[k] in required'
      invariant forall t: set<Id> :: required <= t && Closed(g, t) ==> required' <= t
    {
      if deps[n] !in required' {
        ghost var before := pending' + [cid];
        required' := required' + {deps[n]};
        pending' := pending' + [deps[n]];
        assert deps[n] in g[cid];
        assert forall c :: c in pending' + [cid] <==> c in before || c == deps[n];
      }
    }
  }

  /** The worklist loop computes the least closure of the seeds, and ends. */
  method Close(g: Graph, seeds: set<Id>) returns (required: set<Id>)
    ensures LeastClosure(g, seeds, required)
  {
    required := seeds;
    var pending := Enumerate(required);
    ghost var universe := seeds + AllDependencies(g);
    while pending != []
      invariant seeds <= required <= universe
      invariant forall c :: c in pending ==> c in required
      invariant Handled(g, required, pending)
      invariant forall t: set<Id> :: seeds <= t && Closed(g, t) ==> required <= t
      decreases universe - required, |pending|
    {
      var cid := pending[|pending| - 1];
      pending := pending[..|pending| - 1];
      required, pending := AddDependencies(g, cid, required, pending);
    }
  }

  /** In a registry whose dependencies are all known, only seeds can be missing. */
  lemma MissingAreSeeds(g: Graph, seeds: set<Id>, s: set<Id>)
    requires AllKnown(g) && LeastClosure(g, seeds, s)
    ensures s <= seeds + g.Keys
  {
    var t := s * (seeds + g.Keys);
    assert Closed(g, t);
  }

  /** One can get to `c` from a seed along declared dependencies. */
  ghost predicate Reachable(g: Graph, seeds: set<Id>, c: Id) {
    exists p :: Leads(g, seeds, p, c)
  }

  predicate Leads(g: Graph, seeds: set<Id>, p: seq<Id>, c: Id) {
    p != [] && p[0] in seeds && p[|p| - 1] == c && Path(g, p)
  }

  /** The least closure is what can be reached. */
  lemma ClosureIsReachable(g: Graph, seeds: set<Id>, s: set<Id>)
    requires LeastClosure(g, seeds, s)
    ensures forall c :: c in s <==> Reachable(g, seeds, c)
  {
    var t := set c | c in s && Reachable(g, seeds, c);
    forall c | c in seeds
      ensures c in t
    {
      assert Leads(g, seeds, [c], c);
    }
    forall c, d | c in t && c in g && d in g[c]
      ensures d in t
    {
      var p :| Leads(g, seeds, p, c);
      assert Leads(g, seeds, p + [d], d) by {
        ExtendPath(g, p, d);
      }
    }
    assert seeds <= t && Closed(g, t);
    forall c | Reachable(g, seeds, c)
      ensures c in s
    {
      var p :| Leads(g, seeds, p, c);
      PathStaysIn(g, s, p);
    }
  }

  lemma {:induction false} PathStaysIn(g: Graph, s: set<Id>, p: seq<Id>)
    requires Closed(g, s) && p != [] && p[0] in s && Path(g, p)
    ensures p[|p| - 1] in s
  {
    if |p| > 1 {
      PathStaysIn(g, s, p[1..]);
    }
  }
}
