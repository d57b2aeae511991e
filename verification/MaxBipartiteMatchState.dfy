/**
 The augmenting-path search of test/lib/googlemock/src/gmock-matchers.cc:124-226.
 */
module AugmentingPaths {
  import opened BipartiteMatching

  /** Nodes marked in `seen` stay marked in `seen'`. */
  ghost predicate Grows(seen: seq<bool>, seen': seq<bool>) {
    |seen| == |seen'| && forall r :: 0 <= r < |seen| && seen[r] ==> seen'[r]
  }

  /** The right nodes marked between two points of a search. */
  ghost predicate NewlySeen(seen: seq<bool>, seen': seq<bool>, r: int)
    requires |seen| == |seen'|
  {
    0 <= r < |seen| && seen'[r] && !seen[r]
  }

  /** A search starts from an unmatched left node, or arrives at one from its marked partner. */
  ghost predicate PartnerSeen(l: int, left: seq<int>, seen: seq<bool>) {
    0 <= l < |left| && (left[l] != UNUSED ==> 0 <= left[l] < |seen| && seen[left[l]])
  }

  /** The unmarked right nodes, which bound the depth of the search. */
  ghost function Unseen(seen: seq<bool>): set<int> {
    set r | 0 <= r < |seen| && !seen[r]
  }

  lemma UnseenShrinks(seen: seq<bool>, seen': seq<bool>, r: int)
    requires Grows(seen, seen') && 0 <= r < |seen| && !seen'[r]
    ensures Unseen(seen'[r := true]) < Unseen(seen)
  {
    assert r in Unseen(seen);
  }

  /** Every right node adjacent to l is marked. */
  ghost predicate AllSeen(g: Graph, l: int, seen: seq<bool>) {
    forall r :: (l, r) in g.edges ==> 0 <= r < |seen| && seen[r]
  }

  /**
   The newly marked right nodes are matched, and closed under residual reachability: whatever
   their partners are adjacent to is marked too.
   */
  ghost predicate Exhausted(g: Graph, right: seq<int>, seen: seq<bool>, seen': seq<bool>) {
    && |seen| == |seen'| == |right|
    && forall r :: NewlySeen(seen, seen', r) ==> right[r] != UNUSED && AllSeen(g, right[r], seen')
  }

  /**
   The effect of a successful search from l on the vectors, given what was marked when it began.

   The search returns with the right node formerly linked to l (if any) still naming l, because its
   caller is about to relink that node: hence the exception in RightLinkedExcept.  Otherwise
     - l is linked, to a right node that was not marked before;
     - no other left node changes between matched and unmatched, no right node becomes unmatched;
     - the links of right nodes marked before, and of their partners, are untouched.
   */
  ghost predicate Augmented(g: Graph, l: int, left: seq<int>, right: seq<int>, seen: seq<bool>,
                            left': seq<int>, right': seq<int>)
    requires 0 <= l < |left| == |left'| && |right| == |right'| == |seen|
  {
    && LeftLinked(g, left', right')
    && RightLinkedExcept(left', right', left[l])
    && left'[l] != UNUSED && !seen[left'[l]]
    && (forall k :: 0 <= k < |left| && k != l ==> (left'[k] == UNUSED <==> left[k] == UNUSED))
    && (forall r :: 0 <= r < |right| && right[r] != UNUSED ==> right'[r] != UNUSED)
    && (forall r :: 0 <= r < |right| && seen[r] ==> right'[r] == right[r])
    && (forall k :: 0 <= k < |left| && k != l && 0 <= left[k] < |seen| && seen[left[k]] ==> left'[k] == left[k])
  }

  /** The links of the right nodes in dead are as they were. */
  ghost predicate KeepsLinks(dead: set<int>, right: seq<int>, right': seq<int>) {
    |right| == |right'| && forall r :: r in dead && 0 <= r < |right| ==> right'[r] == right[r]
  }

  /** A linked right node leads back to a left node that names it. */
  lemma PartnerNamesBack(g: Graph, left: seq<int>, right: seq<int>, r: int, seen: seq<bool>)
    requires Linked(g, left, right) && 0 <= r < |right| == |seen| && right[r] != UNUSED && seen[r]
    ensures 0 <= right[r] < |left| && left[right[r]] == r && PartnerSeen(right[r], left, seen)
  {
  }

  /** The residual edge to the sink: r is unmatched, hence in no dead end. */
  lemma LinkToFreeNode(g: Graph, l: int, r: int, left: seq<int>, right: seq<int>, seen: seq<bool>, dead: set<int>)
    requires g.Valid() && Linked(g, left, right) && |seen| == |right|
    requires (l, r) in g.edges && !seen[r] && right[r] == UNUSED
    requires PartnerSeen(l, left, seen)
    requires DeadEnd(g, right, dead)
    ensures Augmented(g, l, left, right, seen, left[l := r], right[r := l])
    ensures KeepsLinks(dead, right, right[r := l]) && !g.NeighboursIn(l, dead)
  {
  }

  /** The residual edge through r to its partner, from which the search succeeded. */
  lemma LinkThroughPartner(g: Graph, l: int, r: int, left: seq<int>, right: seq<int>, seen: seq<bool>, seen': seq<bool>,
                           left': seq<int>, right': seq<int>, dead: set<int>)
    requires g.Valid() && Linked(g, left, right)
    requires |left| == |left'| && |right| == |right'| == |seen|
    requires (l, r) in g.edges && !seen[r] && right[r] != UNUSED
    requires PartnerSeen(l, left, seen)
    requires Grows(seen, seen') && seen'[r]
    requires Augmented(g, right[r], left, right, seen', left', right')
    requires DeadEnd(g, right, dead) && KeepsLinks(dead, right, right') && !g.NeighboursIn(right[r], dead)
    ensures Augmented(g, l, left, right, seen, left'[l := r], right'[r := l])
    ensures KeepsLinks(dead, right, right'[r := l]) && !g.NeighboursIn(l, dead)
  {
    var partner := right[r];
    assert left[partner] == r && partner != l;
    assert left[l] != UNUSED ==> right[left[l]] == l;
    assert left'[l] == left[l];
    assert r !in dead;
  }

  lemma NothingSeenYet(g: Graph, right: seq<int>, seen: seq<bool>)
    requires |seen| == |right|
    ensures Grows(seen, seen) && Exhausted(g, right, seen, seen)
    ensures forall dead :: KeepsLinks(dead, right, right)
  {
  }

  /** A branch through r that failed adds r and what it marked to the exhausted nodes. */
  lemma ExhaustedAfterDeadBranch(g: Graph, r: int, right: seq<int>, seen: seq<bool>, seen1: seq<bool>, seen2: seq<bool>)
    requires 0 <= r < |right| == |seen| == |seen1| && right[r] != UNUSED
    requires Grows(seen, seen1) && Exhausted(g, right, seen, seen1)
    requires Grows(seen1[r := true], seen2) && Exhausted(g, right, seen1[r := true], seen2)
    requires AllSeen(g, right[r], seen2)
    ensures Grows(seen, seen2) && Exhausted(g, right, seen, seen2)
  {
  }

  /** A search begun at an unmatched node leaves nothing for a caller to repair. */
  lemma AugmentedFromFree(g: Graph, l: int, left: seq<int>, right: seq<int>, seen: seq<bool>,
                          left': seq<int>, right': seq<int>)
    requires 0 <= l < |left| == |left'| && |right| == |right'| == |seen|
    requires Augmented(g, l, left, right, seen, left', right') && left[l] == UNUSED
    ensures Linked(g, left', right') && left'[l] != UNUSED
    ensures forall k :: 0 <= k < |left| && k != l ==> (left'[k] == UNUSED <==> left[k] == UNUSED)
  {
  }

  lemma EmptyDeadEnd(g: Graph, right: seq<int>)
    ensures DeadEnd(g, right, {})
  {
  }

  /** A later success leaves a dead end dead. */
  lemma DeadEndKept(g: Graph, right: seq<int>, right': seq<int>, dead: set<int>)
    requires DeadEnd(g, right, dead) && KeepsLinks(dead, right, right')
    ensures DeadEnd(g, right', dead)
  {
  }

  /** After a failed search nothing reachable from l leads on: its marks extend any earlier dead end. */
  lemma ExhaustedExtendsDeadEnd(g: Graph, l: int, right: seq<int>, seen: seq<bool>, seen': seq<bool>, dead: set<int>)
      returns (dead': set<int>)
    requires g.Valid() && |right| == g.rhs
    requires DeadEnd(g, right, dead)
    requires forall r :: 0 <= r < |seen| ==> !seen[r]
    requires Exhausted(g, right, seen, seen') && AllSeen(g, l, seen')
    ensures DeadEnd(g, right, dead') && g.NeighboursIn(l, dead')
    ensures forall k :: g.NeighboursIn(k, dead) ==> g.NeighboursIn(k, dead')
  {
    var marked := set r | 0 <= r < |seen'| && seen'[r];
    dead' := dead + marked;
    forall r | r in dead'
      ensures 0 <= r < |right| && right[r] != UNUSED && g.NeighboursIn(right[r], dead')
    {
      if r in marked {
        assert NewlySeen(seen, seen', r);
      }
    }
  }
}

module MaxBipartiteMatchStates {
  import opened AugmentingPaths
  import opened BipartiteMatching
  import opened MatchMatrices

  ghost function ToSet(pairs: seq<(int, int)>): set<(int, int)> {
    set p | p in pairs
  }

  /** One more entry of left is one more pair, or none. */
  lemma PairsOfNext(left: seq<int>, n: nat)
    requires n < |left|
    ensures left[n] == UNUSED ==> PairsOf(left[..n + 1]) == PairsOf(left[..n])
    ensures left[n] != UNUSED ==> (n, left[n]) !in PairsOf(left[..n])
    ensures left[n] != UNUSED ==> PairsOf(left[..n + 1]) == PairsOf(left[..n]) + {(n, left[n])}
  {
  }

  class MaxBipartiteMatchState {
    const graph: MatchMatrix
    var left: seq<int>
    var right: seq<int>

    /** The marks of the current search, which `Compute` lends to every nested call. */
    var seen: seq<bool>

    ghost predicate Sized()
      reads this
    {
      graph.Valid() && |left| == graph.numElements && |right| == |seen| == graph.numMatchers
    }

    /** Left and right are mutually referent along edges of the graph. */
    ghost predicate Valid()
      reads this, graph.matched
    {
      Sized() && Linked(graph.AsGraph(), left, right)
    }

    constructor (graph: MatchMatrix)
      requires graph.Valid()
      ensures this.graph == graph && Valid()
      ensures forall l :: 0 <= l < |left| ==> left[l] == UNUSED
    {
      this.graph := graph;
      left := seq(graph.numElements, _ => UNUSED);
      right := seq(graph.numMatchers, _ => UNUSED);
      seen := seq(graph.numMatchers, _ => false);
    }

    /**
     Depth-first search for an augmenting path from ilhs.

     `dead` is any set that is a dead end on entry: a successful search changes no link in it, and
     a node all of whose neighbours lie in it cannot be matched, whatever is marked on entry.
     */
    method TryAugment(ilhs: nat, ghost dead: set<int>) returns (ok: bool)
      requires Valid() && ilhs < graph.numElements
      requires PartnerSeen(ilhs, left, seen)
      requires DeadEnd(graph.AsGraph(), right, dead)
      modifies this
      ensures Sized() && Grows(old(seen), seen)
      ensures !ok ==> left == old(left) && right == old(right)
      ensures !ok ==> Exhausted(graph.AsGraph(), right, old(seen), seen)
      ensures !ok ==> AllSeen(graph.AsGraph(), ilhs, seen)
      ensures ok ==> Augmented(graph.AsGraph(), ilhs, old(left), old(right), old(seen), left, right)
      ensures ok ==> !graph.AsGraph().NeighboursIn(ilhs, dead)
      ensures KeepsLinks(dead, old(right), right)
      decreases Unseen(seen)
    {
      hide MatchMatrix.AsGraph, Graph.NeighboursIn, LeftLinked, RightLinkedExcept, PartnerSeen;
      hide Augmented, Exhausted, DeadEnd, KeepsLinks;
      ghost var g := graph.AsGraph();
      ghost var left0, right0, seen0 := left, right, seen;
      NothingSeenYet(g, right0, seen0);
      for irhs := 0 to graph.numMatchers
        invariant left == left0 && right == right0
        invariant Grows(seen0, seen)
        invariant Exhausted(g, right0, seen0, seen)
        invariant forall r :: 0 <= r < irhs && (ilhs, r) in g.edges ==> seen[r]
      {
        if seen[irhs] || !graph.HasEdge(ilhs, irhs) {
          continue;
        }
        ghost var seen1 := seen;
        seen := seen[irhs := true];
        if right[irhs] == UNUSED {
          LinkToFreeNode(g, ilhs, irhs, left0, right0, seen0, dead);
          left, right := left[ilhs := irhs], right[irhs := ilhs];
          return true;
        }
        ghost var seen2 := seen;
        PartnerNamesBack(g, left0, right0, irhs, seen2);
        UnseenShrinks(seen0, seen1, irhs);
        var reachesSink := TryAugment(right[irhs], dead);
        if reachesSink {
          LinkThroughPartner(g, ilhs, irhs, left0, right0, seen0, seen2, left, right, dead);
          left, right := left[ilhs := irhs], right[irhs := ilhs];
          return true;
        }
        ExhaustedAfterDeadBranch(g, irhs, right0, seen0, seen1, seen);
      }
      return false;
    }

    /** The pairs of a maximum matching, in the order of their left nodes. */
    method Compute() returns (result: seq<(int, int)>)
      requires Valid() && forall l :: 0 <= l < |left| ==> left[l] == UNUSED
      modifies this
      ensures Valid()
      ensures ToSet(result) == PairsOf(left) && |result| == |PairsOf(left)|
      ensures IsMaximum(graph.AsGraph(), ToSet(result))
    {
      hide MatchMatrix.AsGraph, Graph.NeighboursIn, Linked, AllSeen, IsMaximum;
      hide Augmented, Exhausted, DeadEnd, KeepsLinks;
      ghost var g := graph.AsGraph();
      ghost var dead: set<int> := {};
      EmptyDeadEnd(g, right);
      for ilhs := 0 to graph.numElements
        invariant Valid()
        invariant forall l :: ilhs <= l < |left| ==> left[l] == UNUSED
        invariant DeadEnd(g, right, dead)
        invariant forall l :: 0 <= l < ilhs && left[l] == UNUSED ==> g.NeighboursIn(l, dead)
      {
        assert left[ilhs] == UNUSED;
        seen := seq(graph.numMatchers, _ => false);
        ghost var left0, right0, seen0 := left, right, seen;
        var augmented := TryAugment(ilhs, dead);
        if augmented {
          AugmentedFromFree(g, ilhs, left0, right0, seen0, left, right);
          DeadEndKept(g, right0, right, dead);
        } else {
          dead := ExhaustedExtendsDeadEnd(g, ilhs, right, seen0, seen, dead);
        }
      }
      DeadEndCertifiesMaximum(g, left, right, dead);

      result := CollectPairs();
    }

    method CollectPairs() returns (result: seq<(int, int)>)
      ensures ToSet(result) == PairsOf(left) && |result| == |PairsOf(left)|
    {
      result := [];
      for ilhs := 0 to |left|
        invariant ToSet(result) == PairsOf(left[..ilhs]) && |result| == |PairsOf(left[..ilhs])|
      {
        PairsOfNext(left, ilhs);
        var irhs := left[ilhs];
        if irhs == UNUSED {
          continue;
        }
        result := result + [(ilhs, irhs)];
      }
      assert left[..|left|] == left;
    }
  }

  /** A maximum matching of the graph, each pair listed once. */
  method FindMaxBipartiteMatching(g: MatchMatrix) returns (pairs: seq<(int, int)>)
    requires g.Valid()
    ensures IsMaximum(g.AsGraph(), ToSet(pairs)) && |pairs| == |ToSet(pairs)|
  {
    var state := new MaxBipartiteMatchState(g);
    pairs := state.Compute();
  }
}
