/**
 Bipartite graphs, matchings, and the duality argument that makes the search of
 `MaxBipartiteMatchState` (test/lib/googlemock/src/gmock-matchers.cc:124-226) exact.

 Left nodes are elements, right nodes are matchers.  A matching in progress is kept as the two
 vectors `left` and `right` of the source, here as sequences; `UNUSED` is the source's `kUnused`.
 */
module BipartiteMatching {

  const UNUSED: int := -1

  datatype Graph = Graph(lhs: nat, rhs: nat, edges: set<(int, int)>) {
    ghost predicate Valid() {
      forall e :: e in edges ==> 0 <= e.0 < lhs && 0 <= e.1 < rhs
    }

    /** Every right node adjacent to left node l lies in s. */
    ghost predicate NeighboursIn(l: int, s: set<int>) {
      forall r :: (l, r) in edges ==> r in s
    }
  }

  /** Edges of g, no two of which share an endpoint. */
  ghost predicate IsMatching(g: Graph, m: set<(int, int)>) {
    && m <= g.edges
    && forall p, q :: p in m && q in m && (p.0 == q.0 || p.1 == q.1) ==> p == q
  }

  /** A matching that no other matching of g exceeds. */
  ghost predicate IsMaximum(g: Graph, m: set<(int, int)>) {
    && IsMatching(g, m)
    && forall other :: IsMatching(g, other) ==> |other| <= |m|
  }

  // ----- The two vectors -----------------------------------------------------------------------

  /** Each used entry of `left` names an edge and is named back by `right`. */
  ghost predicate LeftLinked(g: Graph, left: seq<int>, right: seq<int>) {
    && |left| == g.lhs
    && |right| == g.rhs
    && forall l :: 0 <= l < |left| && left[l] != UNUSED ==>
                     0 <= left[l] < |right| && right[left[l]] == l && (l, left[l]) in g.edges
  }

  /** Each used entry of `right`, except possibly the one at `stale`, is named back by `left`. */
  ghost predicate RightLinkedExcept(left: seq<int>, right: seq<int>, stale: int) {
    forall r :: 0 <= r < |right| && r != stale && right[r] != UNUSED ==>
                  0 <= right[r] < |left| && left[right[r]] == r
  }

  /** The invariant stated above the class: both vectors are mutually referent. */
  ghost predicate Linked(g: Graph, left: seq<int>, right: seq<int>) {
    LeftLinked(g, left, right) && RightLinkedExcept(left, right, UNUSED)
  }

  /** The pairs a `left` vector stands for. */
  ghost function PairsOf(left: seq<int>): set<(int, int)> {
    set l | 0 <= l < |left| && left[l] != UNUSED :: (l, left[l])
  }

  // ----- Dead ends -----------------------------------------------------------------------------

  /**
   A set of matched right nodes that no residual path leaves: the partner of a member has only
   members as neighbours.  A search that enters such a set cannot reach the sink.
   */
  ghost predicate DeadEnd(g: Graph, right: seq<int>, dead: set<int>) {
    forall r :: r in dead ==> 0 <= r < |right| && right[r] != UNUSED && g.NeighboursIn(right[r], dead)
  }

  lemma LinkedPairsAreAMatching(g: Graph, left: seq<int>, right: seq<int>)
    requires Linked(g, left, right)
    ensures IsMatching(g, PairsOf(left))
  {
  }

  /** A set that maps injectively into another is no larger. */
  lemma {:induction false} InjectionBound<A, B>(xs: set<A>, ys: set<B>, f: map<A, B>)
    requires forall x :: x in xs ==> x in f && f[x] in ys
    requires forall x, y :: x in xs && y in xs && f[x] == f[y] ==> x == y
    ensures |xs| <= |ys|
  {
    if xs == {} {
    } else {
      var x :| x in xs;
      InjectionBound(xs - {x}, ys - {f[x]}, f);
    }
  }

  /** Where a pair of any rival matching is charged: to our pair at its dead right end, or else at its left end. */
  ghost function Charge(left: seq<int>, right: seq<int>, dead: set<int>, p: (int, int)): (int, int)
    requires p.1 in dead ==> 0 <= p.1 < |right|
    requires p.1 !in dead ==> 0 <= p.0 < |left|
  {
    if p.1 in dead then (right[p.1], p.1) else (p.0, left[p.0])
  }

  /**
   The duality argument.  If every unmatched left node sees only a dead end, then the dead right
   nodes together with the left nodes matched outside it cover all edges, one per pair; so no
   matching is larger.
   */
  lemma DeadEndCertifiesMaximum(g: Graph, left: seq<int>, right: seq<int>, dead: set<int>)
    requires g.Valid() && Linked(g, left, right) && DeadEnd(g, right, dead)
    requires forall l :: 0 <= l < |left| && left[l] == UNUSED ==> g.NeighboursIn(l, dead)
    ensures IsMaximum(g, PairsOf(left))
  {
    LinkedPairsAreAMatching(g, left, right);
    var ours := PairsOf(left);
    forall other | IsMatching(g, other)
      ensures |other| <= |ours|
    {
      var f := map p | p in other :: Charge(left, right, dead, p);
      forall p | p in other
        ensures f[p] in ours && (f[p].1 in dead <==> p.1 in dead)
      {
        if p.1 in dead {
          assert left[right[p.1]] == p.1;
        } else {
          assert !g.NeighboursIn(p.0, dead);
        }
      }
      InjectionBound(other, ours, f);
    }
  }

  // ----- Injections ----------------------------------------------------------------------------

  /** An assignment of a distinct adjacent right node to every left node. */
  ghost predicate InjectsLeft(g: Graph, f: seq<int>) {
    && |f| == g.lhs
    && (forall l :: 0 <= l < |f| ==> (l, f[l]) in g.edges)
    && forall l, k :: 0 <= l < k < |f| ==> f[l] != f[k]
  }

  /** An assignment of a distinct adjacent left node to every right node. */
  ghost predicate InjectsRight(g: Graph, f: seq<int>) {
    && |f| == g.rhs
    && (forall r :: 0 <= r < |f| ==> (f[r], r) in g.edges)
    && forall r, k :: 0 <= r < k < |f| ==> f[r] != f[k]
  }

  /** The indices below n. */
  ghost function Below(n: nat): (s: set<int>)
    ensures |s| == n
    ensures forall i :: i in s <==> 0 <= i < n
  {
    if n == 0 then {} else Below(n - 1) + {n - 1}
  }

  ghost predicate IsPaired(m: set<(int, int)>, l: int) {
    exists r :: (l, r) in m
  }

  /** A matching has at most one pair per left node and at most one per right node. */
  lemma MatchingBound(g: Graph, m: set<(int, int)>)
    requires g.Valid() && IsMatching(g, m)
    ensures |m| <= g.lhs && |m| <= g.rhs
  {
    var ls := Below(g.lhs);
    var rs := Below(g.rhs);
    forall p | p in m
      ensures p.0 in ls && p.1 in rs
    {
      assert p in g.edges;
    }
    InjectionBound(m, ls, map p | p in m :: p.0);
    InjectionBound(m, rs, map p | p in m :: p.1);
  }

  /** A matching of size |lhs| is an injection of the left nodes. */
  lemma FullLeft(g: Graph, m: set<(int, int)>) returns (f: seq<int>)
    requires g.Valid() && IsMatching(g, m) && |m| == g.lhs
    ensures InjectsLeft(g, f) && forall l :: 0 <= l < |f| ==> (l, f[l]) in m
  {
    var ls := Below(g.lhs);
    forall l | 0 <= l < g.lhs
      ensures IsPaired(m, l)
    {
      if !IsPaired(m, l) {
        forall p | p in m
          ensures p.0 in ls - {l}
        {
          assert p in g.edges;
        }
        InjectionBound(m, ls - {l}, map p | p in m :: p.0);
        assert false;
      }
    }
    f := Choices(m, g.lhs);
  }

  /** A matching of size |rhs| is an injection of the right nodes. */
  lemma FullRight(g: Graph, m: set<(int, int)>) returns (f: seq<int>)
    requires g.Valid() && IsMatching(g, m) && |m| == g.rhs
    ensures InjectsRight(g, f) && forall r :: 0 <= r < |f| ==> (f[r], r) in m
  {
    var flip := set p | p in m :: (p.1, p.0);
    var back := Graph(g.rhs, g.lhs, set p | p in g.edges :: (p.1, p.0));
    InjectionBound(m, flip, map p | p in m :: (p.1, p.0));
    InjectionBound(flip, m, map p | p in flip :: (p.1, p.0));
    f := FullLeft(back, flip);
  }

  lemma {:induction false} Choices(m: set<(int, int)>, n: nat) returns (f: seq<int>)
    requires forall l :: 0 <= l < n ==> IsPaired(m, l)
    ensures |f| == n && forall l :: 0 <= l < n ==> (l, f[l]) in m
  {
    if n == 0 {
      f := [];
    } else {
      var rest := Choices(m, n - 1);
      assert IsPaired(m, n - 1);
      var r :| (n - 1, r) in m;
      f := rest + [r];
    }
  }

  /** The pairs (i, f[i]) for i below n. */
  ghost function Rows(f: seq<int>, n: nat): (m: set<(int, int)>)
    requires n <= |f|
    ensures |m| == n
    ensures forall p :: p in m <==> 0 <= p.0 < n && p.1 == f[p.0]
  {
    if n == 0 then {} else Rows(f, n - 1) + {(n - 1, f[n - 1])}
  }

  /** The pairs (f[i], i) for i below n. */
  ghost function Columns(f: seq<int>, n: nat): (m: set<(int, int)>)
    requires n <= |f|
    ensures |m| == n
    ensures forall p :: p in m <==> 0 <= p.1 < n && p.0 == f[p.1]
  {
    if n == 0 then {} else Columns(f, n - 1) + {(f[n - 1], n - 1)}
  }

  /** An injection of one side is a matching with one pair for each node of that side. */
  lemma InjectionIsMatching(g: Graph, f: seq<int>)
    ensures InjectsLeft(g, f) ==> IsMatching(g, Rows(f, g.lhs)) && |Rows(f, g.lhs)| == g.lhs
    ensures InjectsRight(g, f) ==> IsMatching(g, Columns(f, g.rhs)) && |Columns(f, g.rhs)| == g.rhs
  {
  }

  /** A maximum matching is as large as the left side exactly when the left side injects. */
  lemma MaximumFillsLeft(g: Graph, m: set<(int, int)>)
    requires g.Valid() && IsMaximum(g, m)
    ensures |m| >= g.lhs <==> exists f :: InjectsLeft(g, f)
  {
    MatchingBound(g, m);
    if |m| >= g.lhs {
      var f := FullLeft(g, m);
    }
    if f :| InjectsLeft(g, f) {
      InjectionIsMatching(g, f);
    }
  }

  /** A maximum matching is as large as the right side exactly when the right side injects. */
  lemma MaximumFillsRight(g: Graph, m: set<(int, int)>)
    requires g.Valid() && IsMaximum(g, m)
    ensures |m| >= g.rhs <==> exists f :: InjectsRight(g, f)
  {
    MatchingBound(g, m);
    if |m| >= g.rhs {
      var f := FullRight(g, m);
    }
    if f :| InjectsRight(g, f) {
      InjectionIsMatching(g, f);
    }
  }
}
