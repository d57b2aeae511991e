/**
 Directed graphs as maps from a node to its immediate prerequisites, and what the traversals of
 test/lib/googlemock/src/gmock-spec-builders.cc:104-178 need to know about them.
 */
module PrerequisiteGraphs {
  import opened FiniteSets

  type Graph<!T> = map<T, set<T>>

  /** Prerequisites of nodes are nodes. */
  ghost predicate Closed<T>(g: Graph<T>) {
    forall x :: x in g ==> g[x] <= g.Keys
  }

  /** A path of at most n+1 edges leads from x to y. */
  ghost predicate ReachesIn<T>(g: Graph<T>, x: T, y: T, n: nat) {
    x in g && (y in g[x] || (n > 0 && exists z :: z in g[x] && ReachesIn(g, z, y, n - 1)))
  }

  /** y is an immediate or indirect prerequisite of x. */
  ghost predicate Reaches<T>(g: Graph<T>, x: T, y: T) {
    exists n: nat :: ReachesIn(g, x, y, n)
  }

  /** All prerequisites of x. */
  ghost function Reach<T>(g: Graph<T>, x: T): set<T> {
    set y | y in g.Keys && Reaches(g, x, y)
  }

  ghost predicate Acyclic<T>(g: Graph<T>) {
    forall x :: x in g ==> !Reaches(g, x, x)
  }

  // ----- Reachability ------------------------------------------------------------------------------

  lemma ReachesStep<T>(g: Graph<T>, x: T, y: T)
    ensures Reaches(g, x, y) <==> x in g && (y in g[x] || exists z :: z in g[x] && Reaches(g, z, y))
  {
    if Reaches(g, x, y) && y !in g[x] {
      var n: nat :| ReachesIn(g, x, y, n);
      var z :| z in g[x] && ReachesIn(g, z, y, n - 1);
      assert Reaches(g, z, y);
    }
    if x in g {
      if y in g[x] {
        assert ReachesIn(g, x, y, 0);
      } else if z :| z in g[x] && Reaches(g, z, y) {
        var n: nat :| ReachesIn(g, z, y, n);
        assert ReachesIn(g, x, y, n + 1);
      }
    }
  }

  lemma {:induction false} ReachesTrans<T>(g: Graph<T>, x: T, y: T, z: T, n: nat)
    requires ReachesIn(g, x, y, n) && Reaches(g, y, z)
    ensures Reaches(g, x, z)
  {
    ReachesStep(g, x, z);
    if y !in g[x] {
      var w :| w in g[x] && ReachesIn(g, w, y, n - 1);
      ReachesTrans(g, w, y, z, n - 1);
    }
  }

  lemma {:induction false} ReachesNode<T>(g: Graph<T>, x: T, y: T, n: nat)
    requires Closed(g) && ReachesIn(g, x, y, n)
    ensures y in g
  {
    if y !in g[x] {
      var z :| z in g[x] && ReachesIn(g, z, y, n - 1);
      ReachesNode(g, z, y, n - 1);
    }
  }

  /** The prerequisites of x: the immediate ones and theirs. */
  lemma ReachOf<T>(g: Graph<T>, x: T)
    requires Closed(g) && x in g
    ensures forall z :: z in g[x] ==> z in Reach(g, x) && Reach(g, z) <= Reach(g, x)
    ensures forall y :: y in Reach(g, x) ==> y in g[x] || exists z :: z in g[x] && y in Reach(g, z)
  {
    forall z | z in g[x]
      ensures z in Reach(g, x)
    {
      ReachesStep(g, x, z);
    }
    forall z, y | z in g[x] && y in Reach(g, z)
      ensures y in Reach(g, x)
    {
      ReachesStep(g, x, y);
    }
    forall y | y in Reach(g, x)
      ensures y in g[x] || exists z :: z in g[x] && y in Reach(g, z)
    {
      ReachesStep(g, x, y);
      if z :| z in g[x] && Reaches(g, z, y) {
        assert y in Reach(g, z);
      }
    }
  }

  lemma ReachTransitive<T>(g: Graph<T>, x: T, y: T)
    requires Closed(g) && y in Reach(g, x)
    ensures Reach(g, y) <= Reach(g, x)
  {
    var n: nat :| ReachesIn(g, x, y, n);
    forall z | z in Reach(g, y)
      ensures z in Reach(g, x)
    {
      ReachesTrans(g, x, y, z, n);
    }
  }

  /** A set that holds the prerequisites of x, and those of its members, holds all prerequisites of x. */
  lemma {:induction false} ClosedSetHoldsReach<T>(g: Graph<T>, x: T, s: set<T>, y: T, n: nat)
    requires x in g && g[x] <= s
    requires forall z :: z in s && z in g ==> g[z] <= s
    requires ReachesIn(g, x, y, n)
    ensures y in s
  {
    if y !in g[x] {
      var z :| z in g[x] && ReachesIn(g, z, y, n - 1);
      ClosedSetHoldsReach(g, z, s, y, n - 1);
    }
  }

  lemma ReachWithin<T>(g: Graph<T>, x: T, s: set<T>)
    requires x in g && g[x] <= s
    requires forall z :: z in s && z in g ==> g[z] <= s
    ensures Reach(g, x) <= s
  {
    forall y | y in Reach(g, x)
      ensures y in s
    {
      var n: nat :| ReachesIn(g, x, y, n);
      ClosedSetHoldsReach(g, x, s, y, n);
    }
  }

  /** From each node of the path to the next leads an edge. */
  ghost predicate IsPath<T>(g: Graph<T>, path: seq<T>) {
    |path| > 1 && forall k :: 0 <= k < |path| - 1 ==> path[k] in g && path[k + 1] in g[path[k]]
  }

  lemma {:induction false} PathTo<T>(g: Graph<T>, x: T, y: T, n: nat) returns (path: seq<T>)
    requires ReachesIn(g, x, y, n)
    ensures IsPath(g, path) && path[0] == x && path[|path| - 1] == y
  {
    if y in g[x] {
      path := [x, y];
    } else {
      var z :| z in g[x] && ReachesIn(g, z, y, n - 1);
      var rest := PathTo(g, z, y, n - 1);
      path := [x] + rest;
    }
  }

  lemma {:induction false} PathReaches<T>(g: Graph<T>, path: seq<T>)
    requires IsPath(g, path)
    ensures ReachesIn(g, path[0], path[|path| - 1], |path| - 2)
  {
    if |path| > 2 {
      assert path[1] in g[path[0]];
      PathReaches(g, path[1..]);
      assert ReachesIn(g, path[1], path[|path| - 1], |path| - 3);
    }
  }

  /** A node is a prerequisite, immediate or indirect, exactly if a path leads to it. */
  lemma ReachByPath<T>(g: Graph<T>, x: T, y: T)
    requires Closed(g)
    ensures y in Reach(g, x) <==> exists path :: IsPath(g, path) && path[0] == x && path[|path| - 1] == y
  {
    if y in Reach(g, x) {
      var n: nat :| ReachesIn(g, x, y, n);
      var path := PathTo(g, x, y, n);
    }
    if path :| IsPath(g, path) && path[0] == x && path[|path| - 1] == y {
      PathReaches(g, path);
      ReachesNode(g, x, y, |path| - 2);
    }
  }

  // ----- Termination without a visited set ---------------------------------------------------------

  ghost function Pow(b: nat, e: nat): nat {
    if e == 0 then 1 else b * Pow(b, e - 1)
  }

  lemma {:induction false} PowMonotone(b: nat, d: nat, e: nat)
    requires b > 0 && d <= e
    ensures 0 < Pow(b, d) <= Pow(b, e)
    decreases e
  {
    if e > 0 {
      PowMonotone(b, if d < e then d else d - 1, e - 1);
      AtLeastOnce(b, Pow(b, e - 1));
    }
  }

  lemma AtLeastOnce(b: nat, p: nat)
    requires b > 0
    ensures b * p >= p
  {
  }

  /** An upper bound on the paths that start at x: one more than nodes, to the power of its prerequisites. */
  ghost function Weight<T>(g: Graph<T>, x: T): nat {
    Pow(|g| + 1, |Reach(g, x)|)
  }

  ghost function StackWeight<T>(g: Graph<T>, stack: seq<T>): nat {
    if stack == [] then 0 else StackWeight(g, stack[..|stack| - 1]) + Weight(g, stack[|stack| - 1])
  }

  lemma StackWeightPush<T>(g: Graph<T>, stack: seq<T>, x: T)
    ensures StackWeight(g, stack + [x]) == StackWeight(g, stack) + Weight(g, x)
  {
  }

  /** In an acyclic graph the weights of the prerequisites of x together stay below that of x. */
  ghost function Share<T>(g: Graph<T>, x: T): nat {
    if |Reach(g, x)| == 0 then 0 else Pow(|g| + 1, |Reach(g, x)| - 1)
  }

  lemma WeightOfPrerequisites<T>(g: Graph<T>, x: T)
    requires Closed(g) && Acyclic(g) && x in g
    ensures forall z :: z in g[x] ==> Weight(g, z) <= Share(g, x)
    ensures |g[x]| * Share(g, x) < Weight(g, x)
  {
    hide Reach, Pow, Weight;
    forall z | z in g[x]
      ensures Weight(g, z) <= Share(g, x)
    {
      LighterPrerequisite(g, x, z);
    }
    SharesBelowWeight(g, x);
  }

  lemma LighterPrerequisite<T>(g: Graph<T>, x: T, z: T)
    requires Closed(g) && Acyclic(g) && x in g && z in g[x]
    ensures Weight(g, z) <= Share(g, x)
  {
    ReachOf(g, x);
    assert z in Reach(g, x) && z !in Reach(g, z);
    SubsetSize(Reach(g, z), Reach(g, x));
    PowMonotone(|g| + 1, |Reach(g, z)|, |Reach(g, x)| - 1);
  }

  lemma SharesBelowWeight<T>(g: Graph<T>, x: T)
    requires Closed(g) && x in g
    ensures |g[x]| * Share(g, x) < Weight(g, x)
  {
    hide Reach, Pow;
    SubsetSize(g[x], g.Keys);
    BelowPower(|g[x]|, |g|, |Reach(g, x)|);
  }

  lemma BelowPower(k: nat, n: nat, e: nat)
    requires k <= n
    ensures k * (if e == 0 then 0 else Pow(n + 1, e - 1)) < Pow(n + 1, e)
  {
    if e > 0 {
      PowMonotone(n + 1, 0, e - 1);
      var p := Pow(n + 1, e - 1);
      assert k * p <= n * p && n * p < (n + 1) * p;
    }
  }

  /** What is reached from a prerequisite of x is reached from x. */
  lemma ReachInside<T>(g: Graph<T>, x: T, e: T)
    requires Closed(g) && x in g && e in g && (e == x || e in Reach(g, x))
    ensures g[e] <= Reach(g, x)
  {
    ReachOf(g, e);
    if e != x {
      ReachTransitive(g, x, e);
    }
  }

  // ----- Growth ------------------------------------------------------------------------------------

  /** A path that uses the new edge goes to its start, and from its end on. */
  lemma {:induction false} PathWithNewEdge<T>(g: Graph<T>, x: T, p: T, y: T, z: T, n: nat)
    requires x in g && ReachesIn(g[x := g[x] + {p}], y, z, n)
    ensures Reaches(g, y, z) || ((y == x || Reaches(g, y, x)) && (z == p || Reaches(g, p, z)))
  {
    var g' := g[x := g[x] + {p}];
    ReachesStep(g, y, z);
    ReachesStep(g, y, x);
    if z !in g'[y] {
      var w :| w in g'[y] && ReachesIn(g', w, z, n - 1);
      PathWithNewEdge(g, x, p, w, z, n - 1);
    }
  }

  lemma {:induction false} OldPath<T>(g: Graph<T>, x: T, p: T, y: T, z: T, n: nat)
    requires x in g && ReachesIn(g, y, z, n)
    ensures ReachesIn(g[x := g[x] + {p}], y, z, n)
  {
    if z !in g[y] {
      var w :| w in g[y] && ReachesIn(g, w, z, n - 1);
      OldPath(g, x, p, w, z, n - 1);
    }
  }

  /** A new prerequisite closes a cycle exactly if it is the node itself or already requires it. */
  lemma NewEdgeKeepsAcyclicIff<T>(g: Graph<T>, x: T, p: T)
    requires Closed(g) && Acyclic(g) && x in g && p in g
    ensures Closed(g[x := g[x] + {p}])
    ensures Acyclic(g[x := g[x] + {p}]) <==> x != p && x !in Reach(g, p)
  {
    var g' := g[x := g[x] + {p}];
    if x == p || Reaches(g, p, x) {
      if n: nat :| x != p && ReachesIn(g, p, x, n) {
        OldPath(g, x, p, p, x, n);
        assert Reaches(g', p, x);
      }
      assert p in g'[x];
      ReachesStep(g', x, x);
    } else {
      forall y | y in g'
        ensures !Reaches(g', y, y)
      {
        if n: nat :| ReachesIn(g', y, y, n) {
          PathWithNewEdge(g, x, p, y, y, n);
          ThroughBoth(g, p, y, x);
        }
      }
    }
  }

  lemma ThroughBoth<T>(g: Graph<T>, x: T, y: T, z: T)
    ensures Reaches(g, x, y) && Reaches(g, y, z) ==> Reaches(g, x, z)
  {
    if n: nat :| ReachesIn(g, x, y, n) && Reaches(g, y, z) {
      ReachesTrans(g, x, y, z, n);
    }
  }

  /** A node that nobody requires is not required indirectly either. */
  lemma {:induction false} NothingLeadsTo<T>(g: Graph<T>, y: T, x: T, n: nat)
    requires forall z :: z in g ==> x !in g[z]
    ensures !ReachesIn(g, y, x, n)
  {
    if z :| y in g && n > 0 && z in g[y] && ReachesIn(g, z, x, n - 1) {
      NothingLeadsTo(g, z, x, n - 1);
    }
  }
}

/** The worklist of the two searches that keep no visited set, on values. */
module Searches {
  import opened PrerequisiteGraphs

  /** Some node of the stack has y among its prerequisites. */
  ghost predicate Under<T>(g: Graph<T>, stack: seq<T>, y: T) {
    exists k :: 0 <= k < |stack| && y in Reach(g, stack[k])
  }

  ghost predicate InOrUnder<T>(g: Graph<T>, rest: set<T>, y: T) {
    y in rest || exists z :: z in rest && y in Reach(g, z)
  }

  /**
   A search from x: every prerequisite of x has been dealt with, lies under the stack, or is among
   or under the nodes that the inner loop still has to visit.
   */
  ghost predicate IsSearch<T>(g: Graph<T>, x: T, done: set<T>, stack: seq<T>, rest: set<T>) {
    && Closed(g) && x in g
    && rest <= Reach(g, x)
    && (forall e :: e in stack ==> e in g && (e == x || e in Reach(g, x)))
    && forall y :: y in Reach(g, x) ==> y in done || Under(g, stack, y) || InOrUnder(g, rest, y)
  }

  lemma SearchStart<T>(g: Graph<T>, x: T, done: set<T>)
    requires Closed(g) && x in g
    ensures IsSearch(g, x, done, [x], {})
  {
    assert [x][0] == x;
  }

  lemma SearchPop<T>(g: Graph<T>, x: T, done: set<T>, stack: seq<T>)
    requires stack != [] && IsSearch(g, x, done, stack, {})
    ensures var e := stack[|stack| - 1];
            && e in g && (e == x || e in Reach(g, x))
            && stack == stack[..|stack| - 1] + [e]
            && IsSearch(g, x, done, stack[..|stack| - 1], g[e])
  {
    var below, e := stack[..|stack| - 1], stack[|stack| - 1];
    ReachInside(g, x, e);
    ReachOf(g, e);
    forall y | y in Reach(g, x) && Under(g, stack, y)
      ensures Under(g, below, y) || InOrUnder(g, g[e], y)
    {
      var k :| 0 <= k < |stack| && y in Reach(g, stack[k]);
      if k < |below| {
        assert below[k] == stack[k];
      }
    }
  }

  /** A node of the rest is dealt with and put on the stack. */
  lemma SearchPush<T>(g: Graph<T>, x: T, done: set<T>, stack: seq<T>, rest: set<T>, next: T)
    requires IsSearch(g, x, done, stack, rest) && next in rest && next in done
    ensures IsSearch(g, x, done, stack + [next], rest - {next})
  {
    var stack' := stack + [next];
    forall y | y in Reach(g, x)
      ensures y in done || Under(g, stack', y) || InOrUnder(g, rest - {next}, y)
    {
      if k :| 0 <= k < |stack| && y in Reach(g, stack[k]) {
        assert stack'[k] == stack[k];
      } else if y !in done {
        assert stack'[|stack|] == next;
      }
    }
  }

  /** A node of the rest under which there is nothing is dealt with. */
  lemma SearchSkip<T>(g: Graph<T>, x: T, done: set<T>, done': set<T>, stack: seq<T>, rest: set<T>, next: T)
    requires IsSearch(g, x, done, stack, rest) && next in rest && Reach(g, next) == {}
    requires done <= done' && next in done'
    ensures IsSearch(g, x, done', stack, rest - {next})
  {
  }

  lemma SearchEnd<T>(g: Graph<T>, x: T, done: set<T>)
    requires IsSearch(g, x, done, [], {})
    ensures Reach(g, x) <= done
  {
  }

  /** The stack with a share more for each node of the rest stays lighter than the limit. */
  ghost predicate HasRoom<T>(g: Graph<T>, stack: seq<T>, rest: set<T>, share: nat, limit: nat) {
    StackWeight(g, stack) + |rest| * share < limit
  }

  /** Popping x leaves room on the stack for all prerequisites of x. */
  lemma RoomForPrerequisites<T>(g: Graph<T>, below: seq<T>, x: T)
    requires Closed(g) && Acyclic(g) && x in g
    ensures HasRoom(g, below, g[x], Share(g, x), StackWeight(g, below + [x]))
    ensures forall z :: z in g[x] ==> Weight(g, z) <= Share(g, x)
  {
    StackWeightPush(g, below, x);
    WeightOfPrerequisites(g, x);
  }

  /** One of them, pushed or not, uses at most one share of that room. */
  lemma RoomForOne<T>(g: Graph<T>, stack: seq<T>, next: T, rest: set<T>, share: nat, limit: nat)
    requires next in rest && HasRoom(g, stack, rest, share, limit)
    ensures HasRoom(g, stack, rest - {next}, share, limit)
    ensures Weight(g, next) <= share ==> HasRoom(g, stack + [next], rest - {next}, share, limit)
  {
    hide StackWeight, Weight;
    StackWeightPush(g, stack, next);
    OneFewer(|rest|, |rest - {next}|, share);
  }

  lemma OneFewer(n: nat, k: nat, share: nat)
    requires n == k + 1
    ensures n * share == k * share + share
  {
  }

  lemma RoomLeft<T>(g: Graph<T>, stack: seq<T>, share: nat, limit: nat)
    requires HasRoom(g, stack, {}, share, limit)
    ensures StackWeight(g, stack) < limit
  {
  }
}

/** The worklist of RetireAllPreRequisites, on values. */
module RetirementFrontiers {
  import opened FiniteSets
  import opened PrerequisiteGraphs

  /** No node is marked before all its prerequisites are. */
  ghost predicate IsDownward<T>(g: Graph<T>, marked: set<T>) {
    forall e :: e in g && e in marked ==> g[e] <= marked
  }

  /**
   A walk from x that marks what it meets: only prerequisites of x have been marked, and a marked
   node (or x itself) with unmarked prerequisites is on the stack or being worked on.
   */
  ghost predicate IsFrontier<T>(g: Graph<T>, x: T, marked0: set<T>, marked: set<T>, stack: seq<T>, busy: set<T>) {
    && marked0 <= marked <= marked0 + Reach(g, x)
    && (forall e :: e in stack ==> e in g && (e == x || e in Reach(g, x)))
    && (forall e :: e in busy ==> e in g && (e == x || e in Reach(g, x)))
    && forall e :: e in g && (e == x || e in marked) ==> g[e] <= marked || e in stack || e in busy
  }

  /** The frontier while the prerequisites of e are visited: those not in the rest are marked. */
  ghost predicate IsVisiting<T>(g: Graph<T>, x: T, marked0: set<T>, marked: set<T>, stack: seq<T>, e: T, rest: set<T>) {
    && Closed(g) && x in g && e in g
    && IsFrontier(g, x, marked0, marked, stack, {e})
    && rest <= g[e] <= marked + rest
  }

  ghost function Unmarked<T>(g: Graph<T>, marked: set<T>): nat {
    |g.Keys - marked|
  }

  lemma FrontierStart<T>(g: Graph<T>, x: T, marked0: set<T>)
    requires x in g && IsDownward(g, marked0)
    ensures IsFrontier(g, x, marked0, marked0, [x], {})
  {
  }

  lemma FrontierPop<T>(g: Graph<T>, x: T, marked0: set<T>, marked: set<T>, stack: seq<T>)
    requires Closed(g) && x in g
    requires stack != [] && IsFrontier(g, x, marked0, marked, stack, {})
    ensures var e := stack[|stack| - 1];
            && e in g && g[e] <= g.Keys
            && IsVisiting(g, x, marked0, marked, stack[..|stack| - 1], e, g[e])
  {
  }

  lemma FrontierSkip<T>(g: Graph<T>, x: T, marked0: set<T>, marked: set<T>, stack: seq<T>, e: T, rest: set<T>, next: T)
    requires IsVisiting(g, x, marked0, marked, stack, e, rest) && next in rest && next in marked
    ensures IsVisiting(g, x, marked0, marked, stack, e, rest - {next})
  {
  }

  lemma FrontierPush<T>(g: Graph<T>, x: T, marked0: set<T>, marked: set<T>, stack: seq<T>, e: T, rest: set<T>, next: T)
    requires IsVisiting(g, x, marked0, marked, stack, e, rest) && next in rest && next !in marked
    ensures IsVisiting(g, x, marked0, marked + {next}, stack + [next], e, rest - {next})
    ensures Unmarked(g, marked + {next}) < Unmarked(g, marked)
  {
    ReachInside(g, x, e);
    assert next in g.Keys - marked;
    SubsetSize(g.Keys - (marked + {next}), g.Keys - marked);
  }

  lemma FrontierDone<T>(g: Graph<T>, x: T, marked0: set<T>, marked: set<T>, stack: seq<T>, e: T)
    requires IsVisiting(g, x, marked0, marked, stack, e, {})
    ensures IsFrontier(g, x, marked0, marked, stack, {})
  {
  }

  /** When the walk is over exactly the prerequisites of x have been marked. */
  lemma FrontierEnd<T>(g: Graph<T>, x: T, marked0: set<T>, marked: set<T>)
    requires x in g && IsFrontier(g, x, marked0, marked, [], {})
    ensures marked == marked0 + Reach(g, x) && IsDownward(g, marked)
  {
    ReachWithin(g, x, marked);
  }

  /** If x is marked already so are its prerequisites. */
  lemma MarkedAlready<T>(g: Graph<T>, x: T, marked: set<T>)
    requires x in g && x in marked && IsDownward(g, marked)
    ensures marked == marked + Reach(g, x)
  {
    ReachWithin(g, x, marked);
  }
}

/** What FindUnsatisfiedPrerequisites sees of a graph, on values. */
module VisiblePrerequisites {
  import opened PrerequisiteGraphs
  import opened Searches

  /** The graph in which only x and the nodes of `through` keep their prerequisites. */
  ghost function Visible<T>(g: Graph<T>, x: T, through: set<T>): Graph<T> {
    map n | n in g :: if n == x || n in through then g[n] else {}
  }

  /** What such a search from x turns up. */
  ghost function Missing<T>(g: Graph<T>, x: T, sat: set<T>, through: set<T>): set<T> {
    Reach(Visible(g, x, through), x) - sat
  }

  lemma {:induction false} VisibleReaches<T>(g: Graph<T>, x: T, through: set<T>, w: T, y: T, n: nat)
    requires ReachesIn(Visible(g, x, through), w, y, n)
    ensures ReachesIn(g, w, y, n)
  {
    var h := Visible(g, x, through);
    if y !in g[w] {
      var z :| z in h[w] && ReachesIn(h, z, y, n - 1);
      VisibleReaches(g, x, through, z, y, n - 1);
    }
  }

  lemma VisibleReach<T>(g: Graph<T>, x: T, through: set<T>)
    requires Closed(g)
    ensures Closed(Visible(g, x, through))
    ensures Visible(g, x, through).Keys == g.Keys
    ensures Reach(Visible(g, x, through), x) <= Reach(g, x) <= g.Keys
  {
    var h := Visible(g, x, through);
    forall y | y in Reach(h, x)
      ensures y in Reach(g, x)
    {
      var n: nat :| ReachesIn(h, x, y, n);
      VisibleReaches(g, x, through, x, y, n);
    }
  }

  /** A node other than x that is not looked through hides whatever lies beyond it. */
  lemma NothingBeyond<T>(g: Graph<T>, x: T, through: set<T>, z: T)
    requires Closed(g) && Acyclic(g) && x in g && z in Reach(Visible(g, x, through), x) && z !in through
    ensures Reach(Visible(g, x, through), z) == {}
  {
    VisibleReach(g, x, through);
    var h := Visible(g, x, through);
    forall y | y in Reach(h, z)
      ensures false
    {
      ReachesStep(h, z, y);
    }
  }

  /** A satisfied node that is not looked through has only satisfied prerequisites. */
  ghost predicate OthersAreSettled<T>(g: Graph<T>, sat: set<T>, through: set<T>) {
    forall z :: z in g && z in sat && z !in through ==> Reach(g, z) <= sat
  }

  /** Then looking no further misses nothing. */
  lemma VisibleSuffices<T>(g: Graph<T>, x: T, sat: set<T>, through: set<T>)
    requires Closed(g) && x in g && through <= sat && OthersAreSettled(g, sat, through)
    ensures Missing(g, x, sat, through) == {} <==> Reach(g, x) <= sat
  {
    var h := Visible(g, x, through);
    VisibleReach(g, x, through);
    if Missing(g, x, sat, through) == {} {
      forall y | y in Reach(g, x)
        ensures y in sat
      {
        assert Reach(h, x) <= sat by {
          forall z | z in Reach(h, x)
            ensures z in sat
          {
            assert z !in Missing(g, x, sat, through);
          }
        }
        var n: nat :| ReachesIn(g, x, y, n);
        NothingHidden(g, x, sat, through, x, y, n);
      }
    }
  }

  lemma {:induction false} NothingHidden<T>(g: Graph<T>, x: T, sat: set<T>, through: set<T>, w: T, y: T, n: nat)
    requires Closed(g) && x in g && through <= sat && OthersAreSettled(g, sat, through)
    requires Reach(Visible(g, x, through), x) <= sat
    requires w == x || (w in Reach(Visible(g, x, through), x) && w in through)
    requires ReachesIn(g, w, y, n)
    ensures y in sat
  {
    var h := Visible(g, x, through);
    VisibleReach(g, x, through);
    ReachOf(h, x);
    if w != x {
      ReachTransitive(h, x, w);
      ReachOf(h, w);
    }
    assert h[w] == g[w] && g[w] <= Reach(h, x);
    if y !in g[w] {
      var z :| z in g[w] && ReachesIn(g, z, y, n - 1);
      if z in through {
        NothingHidden(g, x, sat, through, z, y, n - 1);
      } else {
        ReachesNode(g, z, y, n - 1);
        assert y in Reach(g, z);
      }
    }
  }

  /** It turns up exactly the unsatisfied nodes to which a path leads on which all others but x are looked through. */
  lemma MissingByPath<T>(g: Graph<T>, x: T, sat: set<T>, through: set<T>, y: T)
    requires Closed(g)
    ensures y in Missing(g, x, sat, through) <==>
              && y !in sat
              && exists path ::
                   IsPath(g, path) && path[0] == x && path[|path| - 1] == y && GoesThrough(path, x, through)
  {
    var h := Visible(g, x, through);
    VisibleReach(g, x, through);
    ReachByPath(h, x, y);
    if path :| IsPath(h, path) && path[0] == x && path[|path| - 1] == y {
      VisiblePath(g, x, through, path);
    }
    if path :| IsPath(g, path) && path[0] == x && path[|path| - 1] == y && GoesThrough(path, x, through) {
      VisiblePath(g, x, through, path);
    }
  }

  ghost predicate GoesThrough<T>(path: seq<T>, x: T, through: set<T>) {
    forall k :: 0 <= k < |path| - 1 ==> path[k] == x || path[k] in through
  }

  lemma VisiblePath<T>(g: Graph<T>, x: T, through: set<T>, path: seq<T>)
    ensures IsPath(Visible(g, x, through), path) <==> IsPath(g, path) && GoesThrough(path, x, through)
  {
    var h := Visible(g, x, through);
    if IsPath(h, path) {
      forall k | 0 <= k < |path| - 1
        ensures path[k] in g && path[k + 1] in g[path[k]] && (path[k] == x || path[k] in through)
      {
        assert path[k] in h && path[k + 1] in h[path[k]];
      }
    }
    if IsPath(g, path) && GoesThrough(path, x, through) {
      forall k | 0 <= k < |path| - 1
        ensures path[k] in h && path[k + 1] in h[path[k]]
      {
        assert path[k] in g && path[k + 1] in g[path[k]];
      }
    }
  }

  // ----- The search itself -------------------------------------------------------------------------

  /** A search of the visible graph that has added to `given` and arrived at `result`. */
  ghost predicate IsFinding<T>(g: Graph<T>, x: T, sat: set<T>, through: set<T>, given: set<T>, result: set<T>,
                               stack: seq<T>, rest: set<T>)
  {
    && Closed(g) && Acyclic(g) && x in g && through <= sat
    && IsSearch(Visible(g, x, through), x, sat + result, stack, rest)
    && (forall e :: e in stack ==> e == x || e in through)
    && given <= result <= given + Missing(g, x, sat, through)
  }

  lemma FindStart<T>(g: Graph<T>, x: T, sat: set<T>, through: set<T>, given: set<T>)
    requires Closed(g) && Acyclic(g) && x in g && through <= sat
    ensures IsFinding(g, x, sat, through, given, given, [x], {})
  {
    VisibleReach(g, x, through);
    SearchStart(Visible(g, x, through), x, sat + given);
  }

  lemma FindPop<T>(g: Graph<T>, x: T, sat: set<T>, through: set<T>, given: set<T>, result: set<T>, stack: seq<T>)
    requires stack != [] && IsFinding(g, x, sat, through, given, result, stack, {})
    ensures var e := stack[|stack| - 1];
            && e in g
            && stack == stack[..|stack| - 1] + [e]
            && IsFinding(g, x, sat, through, given, result, stack[..|stack| - 1], g[e])
            && g[e] <= g.Keys
  {
    VisibleReach(g, x, through);
    SearchPop(Visible(g, x, through), x, sat + result, stack);
  }

  /** Visiting a node of the rest: it is looked through, passed over, or found unsatisfied. */
  lemma FindVisit<T>(g: Graph<T>, x: T, sat: set<T>, through: set<T>, given: set<T>, result: set<T>,
                     stack: seq<T>, rest: set<T>, next: T)
    requires next in rest && IsFinding(g, x, sat, through, given, result, stack, rest)
    ensures var result' := if next in sat then result else result + {next};
            var stack' := if next in through then stack + [next] else stack;
            IsFinding(g, x, sat, through, given, result', stack', rest - {next})
  {
    var h := Visible(g, x, through);
    if next in through {
      SearchPush(h, x, sat + result, stack, rest, next);
    } else {
      NothingBeyond(g, x, through, next);
      SearchSkip(h, x, sat + result, sat + (if next in sat then result else result + {next}), stack, rest, next);
    }
  }

  lemma FindEnd<T>(g: Graph<T>, x: T, sat: set<T>, through: set<T>, given: set<T>, result: set<T>)
    requires IsFinding(g, x, sat, through, given, result, [], {})
    ensures result == given + Missing(g, x, sat, through)
  {
  }
}

/** What mock calls keep true of the prerequisites, on values. */
module CallConsistency {
  import opened PrerequisiteGraphs
  import opened RetirementFrontiers
  import opened VisiblePrerequisites

  /**
   Prerequisites form no cycle; an expectation retires after its prerequisites, and only while
   satisfied; one that is satisfied, and not merely for want of calls, has had its prerequisites
   retired.
   */
  ghost predicate IsConsistent<T>(g: Graph<T>, sat: set<T>, through: set<T>, retired: set<T>) {
    && Closed(g) && Acyclic(g)
    && IsDownward(g, retired)
    && retired <= sat <= g.Keys && through <= sat
    && forall e :: e in g && e in sat && e !in through ==> g[e] <= retired
  }

  lemma ConsistentIsSettled<T>(g: Graph<T>, sat: set<T>, through: set<T>, retired: set<T>)
    requires IsConsistent(g, sat, through, retired)
    ensures OthersAreSettled(g, sat, through)
  {
    forall z | z in g && z in sat && z !in through
      ensures Reach(g, z) <= sat
    {
      ReachWithin(g, z, retired);
    }
  }

  /** The nodes other than x are as they were. */
  ghost predicate SameBut<T>(x: T, a: set<T>, b: set<T>) {
    a - {x} == b - {x}
  }

  /** A call too many: x is no longer satisfied, and nothing retires. */
  lemma ExcessKeepsConsistent<T>(g: Graph<T>, sat: set<T>, through: set<T>, retired: set<T>, x: T,
                                 sat': set<T>, through': set<T>)
    requires IsConsistent(g, sat, through, retired) && x in g && x !in retired
    requires SameBut(x, sat, sat') && SameBut(x, through, through') && x !in sat' && x !in through'
    ensures IsConsistent(g, sat', through', retired)
  {
    forall e | e in g && e in sat' && e !in through'
      ensures g[e] <= retired
    {
      assert e in sat' - {x} && e !in through' - {x};
      assert e in sat && e !in through;
    }
    forall e | e in retired
      ensures e in sat'
    {
      assert e in sat - {x};
    }
    forall e | e in sat'
      ensures e in g
    {
      assert e in sat' - {x};
    }
    forall e | e in through'
      ensures e in sat'
    {
      assert e in through' - {x};
      assert e in sat - {x};
    }
  }

  /** A call that was due: the prerequisites of x retire, and x itself only if satisfied. */
  lemma CallKeepsConsistent<T>(g: Graph<T>, sat: set<T>, through: set<T>, retired: set<T>, x: T,
                               sat': set<T>, through': set<T>, self: set<T>)
    requires IsConsistent(g, sat, through, retired) && x in g && x !in retired && Reach(g, x) <= sat
    requires SameBut(x, sat, sat') && SameBut(x, through, through') && x !in through'
    requires self <= {x} && self <= sat'
    ensures IsConsistent(g, sat', through', retired + Reach(g, x) + self)
  {
    var retired' := retired + Reach(g, x) + self;
    ReachOf(g, x);
    assert x !in Reach(g, x);
    forall e | e in g && e in retired'
      ensures g[e] <= retired'
    {
      if e in Reach(g, x) {
        ReachInside(g, x, e);
      }
    }
    forall e | e in g && e in sat' && e !in through'
      ensures g[e] <= retired'
    {
      if e != x {
        assert e in sat' - {x} && e !in through' - {x};
        assert e in sat && e !in through;
      }
    }
    forall e | e in retired'
      ensures e in sat'
    {
      if e != x {
        assert e in sat - {x};
      }
    }
    forall e | e in sat'
      ensures e in g
    {
      if e != x {
        assert e in sat' - {x};
      }
    }
    forall e | e in through'
      ensures e in sat'
    {
      assert e in through' - {x};
      assert e in sat - {x};
    }
  }

  /**
   A new prerequisite is harmless exactly if it closes no cycle, and is retired already in case the node
   has retired or was called enough.
   */
  lemma NewEdgeKeepsConsistentIff<T>(g: Graph<T>, sat: set<T>, through: set<T>, retired: set<T>, x: T, p: T)
    requires IsConsistent(g, sat, through, retired) && x in g && p in g
    ensures IsConsistent(g[x := g[x] + {p}], sat, through, retired) <==>
              && x != p && x !in Reach(g, p)
              && (x in retired || (x in sat && x !in through) ==> p in retired)
  {
    NewEdgeKeepsAcyclicIff(g, x, p);
    var g' := g[x := g[x] + {p}];
    if IsConsistent(g', sat, through, retired) {
      assert p in g'[x];
    }
  }
}
