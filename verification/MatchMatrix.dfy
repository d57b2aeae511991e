/**
 The connectivity matrix of test/lib/googlemock/include/gmock/gmock-matchers.h:2836-2875: a flattened
 array in left-major order, enumerated by `NextGraph`
 (test/lib/googlemock/src/gmock-matchers.cc:247-259).
 */
module BinaryCounting {

  /** The number a row of bits stands for, first bit least significant. */
  ghost function Value(bits: seq<bool>): nat {
    if bits == [] then 0 else (if bits[0] then 1 else 0) + 2 * Value(bits[1..])
  }

  ghost function Pow2(n: nat): (p: nat)
    ensures p > 0
  {
    if n == 0 then 1 else 2 * Pow2(n - 1)
  }

  /** n copies of b. */
  ghost function Repeat(b: bool, n: nat): (bits: seq<bool>)
    ensures |bits| == n && forall k :: 0 <= k < n ==> bits[k] == b
  {
    seq(n, _ => b)
  }

  /** What adding one does to the bits: the leading ones are cleared and the first zero is set. */
  ghost predicate IsIncrement(before: seq<bool>, after: seq<bool>, carry: nat) {
    && |after| == |before|
    && carry <= |before|
    && (forall k :: 0 <= k < carry ==> before[k] && !after[k])
    && (carry < |before| ==> !before[carry] && after[carry])
    && (forall k :: carry < k < |before| ==> after[k] == before[k])
  }

  lemma {:induction false} ValueBound(bits: seq<bool>)
    ensures Value(bits) < Pow2(|bits|)
  {
    if bits == [] {
    } else {
      ValueBound(bits[1..]);
    }
  }

  lemma {:induction false} ValueInjective(a: seq<bool>, b: seq<bool>)
    requires |a| == |b| && Value(a) == Value(b)
    ensures a == b
  {
    if a == [] {
    } else {
      ValueInjective(a[1..], b[1..]);
      assert a == [a[0]] + a[1..] && b == [b[0]] + b[1..];
    }
  }

  lemma {:induction false} ValueOfRepeat(b: bool, n: nat)
    ensures Value(Repeat(b, n)) == if b then Pow2(n) - 1 else 0
  {
    if n == 0 {
    } else {
      assert Repeat(b, n)[1..] == Repeat(b, n - 1);
      ValueOfRepeat(b, n - 1);
    }
  }

  /** An increment adds one, wrapping to zero exactly when no zero bit was left to set. */
  lemma {:induction false} IncrementAddsOne(before: seq<bool>, after: seq<bool>, carry: nat)
    requires IsIncrement(before, after, carry)
    ensures carry < |before| ==> Value(after) == Value(before) + 1
    ensures carry == |before| ==> Value(before) == Pow2(|before|) - 1 && Value(after) == 0
  {
    if before == [] {
    } else if carry == 0 {
      assert before[1..] == after[1..];
    } else {
      IncrementAddsOne(before[1..], after[1..], carry - 1);
    }
  }

  /** One increment that found a zero to set. */
  ghost predicate IsSuccessor(before: seq<bool>, after: seq<bool>) {
    exists carry: nat :: carry < |before| && IsIncrement(before, after, carry)
  }

  /** A run of increments from all zeros, none of which wrapped. */
  ghost predicate Visits(trail: seq<seq<bool>>, n: nat) {
    && |trail| > 0
    && trail[0] == Repeat(false, n)
    && forall k :: 0 < k < |trail| ==> IsSuccessor(trail[k - 1], trail[k])
  }

  /** The k-th row of an enumeration stands for k. */
  lemma {:induction false} VisitValue(trail: seq<seq<bool>>, n: nat, k: nat)
    requires Visits(trail, n) && k < |trail|
    ensures |trail[k]| == n && Value(trail[k]) == k
  {
    if k == 0 {
      ValueOfRepeat(false, n);
    } else {
      VisitValue(trail, n, k - 1);
      assert IsSuccessor(trail[k - 1], trail[k]);
      var carry: nat :| carry < n && IsIncrement(trail[k - 1], trail[k], carry);
      IncrementAddsOne(trail[k - 1], trail[k], carry);
    }
  }

  /**
   The enumeration is exhaustive and free of repetition: an enumeration that ran until the counter
   could only wrap lists every row of n bits, each at one place only.
   */
  lemma EnumerationIsExact(trail: seq<seq<bool>>, n: nat, bits: seq<bool>)
    requires Visits(trail, n) && |bits| == n
    requires trail[|trail| - 1] == Repeat(true, n)
    ensures |trail| == Pow2(n)
    ensures Value(bits) < |trail| && trail[Value(bits)] == bits
    ensures forall k :: 0 <= k < |trail| && trail[k] == bits ==> k == Value(bits)
  {
    VisitValue(trail, n, |trail| - 1);
    ValueOfRepeat(true, n);
    ValueBound(bits);
    VisitValue(trail, n, Value(bits));
    ValueInjective(trail[Value(bits)], bits);
    forall k | 0 <= k < |trail| && trail[k] == bits
      ensures k == Value(bits)
    {
      VisitValue(trail, n, k);
    }
  }
}

module MatchMatrices {
  import opened BipartiteMatching
  import opened BinaryCounting

  class MatchMatrix {
    const numElements: nat
    const numMatchers: nat
    const matched: array<bool>

    ghost predicate Valid() {
      matched.Length == numElements * numMatchers
    }

    constructor (elements: nat, matchers: nat)
      ensures Valid() && fresh(matched)
      ensures numElements == elements && numMatchers == matchers
      ensures matched[..] == Repeat(false, elements * matchers) && AsGraph().edges == {}
    {
      numElements, numMatchers := elements, matchers;
      matched := new bool[elements * matchers](_ => false);
    }

    function SpaceIndex(ilhs: nat, irhs: nat): (i: nat)
      requires ilhs < numElements && irhs < numMatchers
      ensures i < numElements * numMatchers
    {
      Cell(ilhs, irhs);
      ilhs * numMatchers + irhs
    }

    lemma Cell(ilhs: nat, irhs: nat)
      requires ilhs < numElements && irhs < numMatchers
      ensures ilhs * numMatchers + irhs < (ilhs + 1) * numMatchers <= numElements * numMatchers
    {
    }

    lemma Rows(l: nat, l': nat)
      requires l < l'
      ensures l * numMatchers + numMatchers <= l' * numMatchers
    {
      assert (l + 1) * numMatchers <= l' * numMatchers;
    }

    /** No two coordinates share a cell. */
    lemma SpaceIndexInjective(l: nat, r: nat, l': nat, r': nat)
      requires l < numElements && r < numMatchers && l' < numElements && r' < numMatchers
      requires SpaceIndex(l, r) == SpaceIndex(l', r')
      ensures l == l' && r == r'
    {
      if l < l' {
        Rows(l, l');
      } else if l' < l {
        Rows(l', l);
      }
    }

    /** The graph the cells describe. */
    ghost function AsGraph(): (g: Graph)
      requires Valid()
      reads matched
      ensures g.Valid() && g.lhs == numElements && g.rhs == numMatchers
    {
      Graph(numElements, numMatchers,
        set l, r | 0 <= l < numElements && 0 <= r < numMatchers && matched[SpaceIndex(l, r)] :: (l, r))
    }

    function HasEdge(ilhs: nat, irhs: nat): (b: bool)
      requires Valid() && ilhs < numElements && irhs < numMatchers
      reads matched
      ensures b <==> (ilhs, irhs) in AsGraph().edges
    {
      matched[SpaceIndex(ilhs, irhs)]
    }

    method SetEdge(ilhs: nat, irhs: nat, b: bool)
      requires Valid() && ilhs < numElements && irhs < numMatchers
      modifies matched
      ensures AsGraph().edges ==
                if b then old(AsGraph()).edges + {(ilhs, irhs)} else old(AsGraph()).edges - {(ilhs, irhs)}
    {
      matched[SpaceIndex(ilhs, irhs)] := b;
      ghost var was, now := old(AsGraph()), AsGraph();
      forall l, r | 0 <= l < numElements && 0 <= r < numMatchers && (l, r) != (ilhs, irhs)
        ensures (l, r) in now.edges <==> (l, r) in was.edges
      {
        if SpaceIndex(l, r) == SpaceIndex(ilhs, irhs) {
          SpaceIndexInjective(l, r, ilhs, irhs);
        }
      }
    }

    /** Adds one to the matrix read as a binary number; false when that wraps to the empty graph. */
    method NextGraph() returns (more: bool)
      requires Valid()
      modifies matched
      ensures more <==> IsSuccessor(old(matched[..]), matched[..])
      ensures more ==> Value(matched[..]) == Value(old(matched[..])) + 1
      ensures !more <==> old(matched[..]) == Repeat(true, matched.Length)
      ensures !more ==> matched[..] == Repeat(false, matched.Length)
    {
      ghost var before := matched[..];
      ghost var done := 0;
      for ilhs := 0 to numElements
        invariant done == ilhs * numMatchers <= matched.Length
        invariant forall k :: 0 <= k < done ==> before[k] && !matched[k]
        invariant forall k :: done <= k < matched.Length ==> matched[k] == before[k]
      {
        for irhs := 0 to numMatchers
          invariant done == ilhs * numMatchers + irhs <= matched.Length
          invariant forall k :: 0 <= k < done ==> before[k] && !matched[k]
          invariant forall k :: done <= k < matched.Length ==> matched[k] == before[k]
        {
          var b := SpaceIndex(ilhs, irhs);
          if !matched[b] {
            matched[b] := true;
            assert IsIncrement(before, matched[..], done);
            IncrementAddsOne(before, matched[..], done);
            return true;
          }
          matched[b] := false;
          done := done + 1;
        }
        assert (ilhs + 1) * numMatchers == ilhs * numMatchers + numMatchers;
        assert (ilhs + 1) * numMatchers <= matched.Length by {
          if ilhs + 1 < numElements && numMatchers > 0 {
            Cell(ilhs + 1, 0);
          }
        }
      }
      assert IsIncrement(before, matched[..], done);
      return false;
    }

    /** The loop the exhaustive tests drive from an empty matrix: every graph, in order. */
    method AllGraphs() returns (trail: seq<seq<bool>>)
      requires Valid() && matched[..] == Repeat(false, matched.Length)
      modifies matched
      ensures Visits(trail, matched.Length)
      ensures trail[|trail| - 1] == Repeat(true, matched.Length)
    {
      trail := [matched[..]];
      var more := NextGraph();
      while more
        invariant Visits(trail, matched.Length)
        invariant !more ==> trail[|trail| - 1] == Repeat(true, matched.Length)
        invariant more ==> Value(matched[..]) == Value(trail[|trail| - 1]) + 1
        invariant more ==> IsSuccessor(trail[|trail| - 1], matched[..])
        decreases Pow2(matched.Length) - Value(trail[|trail| - 1]), more
      {
        ValueBound(matched[..]);
        trail := trail + [matched[..]];
        more := NextGraph();
      }
    }
  }
}
