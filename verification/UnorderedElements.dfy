/**
 The two checks that UnorderedElementsAre, IsSupersetOf and IsSubsetOf make of a connectivity
 matrix (test/lib/googlemock/src/gmock-matchers.cc:370-459).
 */
module UnorderedElements {
  import opened BipartiteMatching
  import opened MatchMatrices
  import opened MaxBipartiteMatchStates

  /** UnorderedMatcherRequire::Flags: two bits, of which at least one is set. */
  datatype MatchFlags = Superset | Subset | ExactMatch {
    predicate HasSuperset() { Superset? || ExactMatch? }
    predicate HasSubset() { Subset? || ExactMatch? }
  }

  // ----- What the flags ask for ------------------------------------------------------------------

  /** Every matcher matches some element, and every element some matcher, as far as flagged. */
  ghost predicate Covered(g: Graph, flags: MatchFlags) {
    && (flags.HasSuperset() ==> forall r :: 0 <= r < g.rhs ==> HasLeft(g, r))
    && (flags.HasSubset() ==> forall l :: 0 <= l < g.lhs ==> HasRight(g, l))
  }

  ghost predicate HasLeft(g: Graph, r: int) {
    HasLeftBelow(g, r, g.lhs)
  }

  ghost predicate HasRight(g: Graph, l: int) {
    HasRightBelow(g, l, g.rhs)
  }

  ghost predicate HasLeftBelow(g: Graph, r: int, n: int) {
    exists l :: 0 <= l < n && (l, r) in g.edges
  }

  ghost predicate HasRightBelow(g: Graph, l: int, n: int) {
    exists r :: 0 <= r < n && (l, r) in g.edges
  }

  lemma NoneBelowZero(g: Graph)
    ensures forall r :: !HasLeftBelow(g, r, 0)
    ensures forall l :: !HasRightBelow(g, l, 0)
  {
  }

  lemma OneMore(g: Graph, l: int, r: int)
    requires 0 <= l && 0 <= r
    ensures HasLeftBelow(g, r, l + 1) <==> HasLeftBelow(g, r, l) || (l, r) in g.edges
    ensures HasRightBelow(g, l, r + 1) <==> HasRightBelow(g, l, r) || (l, r) in g.edges
  {
  }

  /** Matchers inject into elements, and elements into matchers, as far as flagged. */
  ghost predicate Pairable(g: Graph, flags: MatchFlags) {
    && (flags.HasSuperset() ==> exists f :: InjectsRight(g, f))
    && (flags.HasSubset() ==> exists f :: InjectsLeft(g, f))
  }

  /** A pairing of all elements with all matchers. */
  ghost predicate IsPermutation(g: Graph, f: seq<int>) {
    InjectsLeft(g, f) && g.lhs == g.rhs
  }

  /** FindPairing accepts nothing that VerifyMatchMatrix has rejected. */
  lemma PairableImpliesCovered(g: Graph, flags: MatchFlags)
    requires g.Valid() && Pairable(g, flags)
    ensures Covered(g, flags)
  {
    if flags.HasSuperset() {
      var f :| InjectsRight(g, f);
      forall r | 0 <= r < g.rhs
        ensures HasLeft(g, r)
      {
        assert (f[r], r) in g.edges;
      }
    }
    if flags.HasSubset() {
      var f :| InjectsLeft(g, f);
      forall l | 0 <= l < g.lhs
        ensures HasRight(g, l)
      {
        assert (l, f[l]) in g.edges;
      }
    }
  }

  /** An exact match asks for a permutation of the elements, as its description says. */
  lemma ExactMatchIsPermutation(g: Graph)
    requires g.Valid()
    ensures Pairable(g, ExactMatch) <==> exists f :: IsPermutation(g, f)
  {
    if Pairable(g, ExactMatch) {
      var f :| InjectsLeft(g, f);
      var b :| InjectsRight(g, b);
      InjectionIsMatching(g, f);
      InjectionIsMatching(g, b);
      MatchingBound(g, Rows(f, g.lhs));
      MatchingBound(g, Columns(b, g.rhs));
      assert IsPermutation(g, f);
    }
    if f :| IsPermutation(g, f) {
      InjectionIsMatching(g, f);
      var b := FullRight(g, Rows(f, g.lhs));
    }
  }

  // ----- Flag by flag ------------------------------------------------------------------------------

  ghost predicate EveryMatcherMatches(g: Graph) {
    forall r :: 0 <= r < g.rhs ==> HasLeft(g, r)
  }

  ghost predicate EveryElementMatches(g: Graph) {
    forall l :: 0 <= l < g.lhs ==> HasRight(g, l)
  }

  /** IsSupersetOf asks for an element for each matcher, IsSubsetOf for a matcher for each element. */
  lemma PairableByFlag(g: Graph)
    requires g.Valid()
    ensures Pairable(g, Superset) <==> exists f :: InjectsRight(g, f)
    ensures Pairable(g, Subset) <==> exists f :: InjectsLeft(g, f)
    ensures Pairable(g, ExactMatch) <==> exists f :: IsPermutation(g, f)
  {
    ExactMatchIsPermutation(g);
  }

  lemma CoveredByFlag(g: Graph)
    requires g.Valid()
    ensures Covered(g, Superset) <==> EveryMatcherMatches(g)
    ensures Covered(g, Subset) <==> EveryElementMatches(g)
    ensures Covered(g, ExactMatch) <==> EveryMatcherMatches(g) && EveryElementMatches(g)
  {
  }

  /** A matcher has an element, or an element a matcher, if and only if some edge ends there. */
  lemma HasAnEdge(g: Graph, i: int)
    requires g.Valid()
    ensures HasLeft(g, i) <==> exists l :: (l, i) in g.edges
    ensures HasRight(g, i) <==> exists r :: (i, r) in g.edges
  {
    if l :| (l, i) in g.edges {
      assert 0 <= (l, i).0 < g.lhs;
    }
    if r :| (i, r) in g.edges {
      assert 0 <= (i, r).1 < g.rhs;
    }
  }

  // ----- The checks --------------------------------------------------------------------------------

  class UnorderedElementsAreMatcherImplBase {
    const matchFlags: MatchFlags

    constructor (flags: MatchFlags)
      ensures matchFlags == flags
    {
      matchFlags := flags;
    }

    method VerifyMatchMatrix(matrix: MatchMatrix) returns (result: bool)
      requires matrix.Valid()
      ensures result <==> Covered(matrix.AsGraph(), matchFlags)
      ensures matchFlags == Superset ==> (result <==> EveryMatcherMatches(matrix.AsGraph()))
      ensures matchFlags == Subset ==> (result <==> EveryElementMatches(matrix.AsGraph()))
      ensures matchFlags == ExactMatch ==>
                (result <==> EveryMatcherMatches(matrix.AsGraph()) && EveryElementMatches(matrix.AsGraph()))
    {
      hide MatchMatrix.AsGraph, HasLeftBelow, HasRightBelow, EveryMatcherMatches, EveryElementMatches;
      CoveredByFlag(matrix.AsGraph());
      ghost var g := matrix.AsGraph();
      NoneBelowZero(g);
      result := true;
      var elementMatched := seq(matrix.numElements, _ => false);
      var matcherMatched := seq(matrix.numMatchers, _ => false);

      for ilhs := 0 to matrix.numElements
        invariant |elementMatched| == matrix.numElements && |matcherMatched| == matrix.numMatchers
        invariant forall l :: 0 <= l < ilhs ==> (elementMatched[l] <==> HasRight(g, l))
        invariant forall l :: ilhs <= l < |elementMatched| ==> !elementMatched[l]
        invariant forall r :: 0 <= r < |matcherMatched| ==> (matcherMatched[r] <==> HasLeftBelow(g, r, ilhs))
      {
        for irhs := 0 to matrix.numMatchers
          invariant |elementMatched| == matrix.numElements && |matcherMatched| == matrix.numMatchers
          invariant forall l :: 0 <= l < ilhs ==> (elementMatched[l] <==> HasRight(g, l))
          invariant elementMatched[ilhs] <==> HasRightBelow(g, ilhs, irhs)
          invariant forall l :: ilhs < l < |elementMatched| ==> !elementMatched[l]
          invariant forall r :: 0 <= r < |matcherMatched| ==>
            (matcherMatched[r] <==> HasLeftBelow(g, r, if r < irhs then ilhs + 1 else ilhs))
        {
          OneMore(g, ilhs, irhs);
          var matched := matrix.HasEdge(ilhs, irhs);
          elementMatched := elementMatched[ilhs := elementMatched[ilhs] || matched];
          matcherMatched := matcherMatched[irhs := matcherMatched[irhs] || matched];
        }
      }

      assert forall l :: 0 <= l < g.lhs ==> (elementMatched[l] <==> HasRight(g, l));
      assert forall r :: 0 <= r < g.rhs ==> (matcherMatched[r] <==> HasLeft(g, r));
      if matchFlags.HasSuperset() {
        for mi := 0 to |matcherMatched|
          invariant result <==> forall r :: 0 <= r < mi ==> matcherMatched[r]
        {
          if matcherMatched[mi] {
            continue;
          }
          result := false;
        }
      }

      ghost var supersetMet := result;
      if matchFlags.HasSubset() {
        for ei := 0 to |elementMatched|
          invariant result <==> supersetMet && forall l :: 0 <= l < ei ==> elementMatched[l]
        {
          if elementMatched[ei] {
            continue;
          }
          result := false;
        }
      }
    }

    method FindPairing(matrix: MatchMatrix) returns (paired: bool)
      requires matrix.Valid()
      ensures paired <==> Pairable(matrix.AsGraph(), matchFlags)
      ensures matchFlags == Superset ==> (paired <==> exists f :: InjectsRight(matrix.AsGraph(), f))
      ensures matchFlags == Subset ==> (paired <==> exists f :: InjectsLeft(matrix.AsGraph(), f))
      ensures matchFlags == ExactMatch ==> (paired <==> exists f :: IsPermutation(matrix.AsGraph(), f))
      ensures paired ==> Covered(matrix.AsGraph(), matchFlags)
    {
      ghost var g := matrix.AsGraph();
      var matches := FindMaxBipartiteMatching(matrix);
      PairableByFlag(g);
      MaximumFillsLeft(g, ToSet(matches));
      MaximumFillsRight(g, ToSet(matches));
      if Pairable(g, matchFlags) {
        PairableImpliesCovered(g, matchFlags);
      }

      var maxFlow := |matches|;
      if matchFlags.HasSuperset() && maxFlow < matrix.numMatchers {
        return false;
      }
      if matchFlags.HasSubset() && maxFlow < matrix.numElements {
        return false;
      }
      return true;
    }
  }
}
