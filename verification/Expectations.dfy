/**
 Mock expectations and their prerequisites: test/lib/googlemock/src/gmock-spec-builders.cc:104-178,
 852-860 and the handling of a call in
 test/lib/googlemock/include/gmock/gmock-spec-builders.h:1096-1106, 1190-1220.
 */
module Expectations {
  import opened PrerequisiteGraphs
  import opened RetirementFrontiers
  import opened CallConsistency
  import opened Searches
  import opened VisiblePrerequisites

  /** The prerequisites of the expectations in a world, as a value. */
  ghost function GraphOf(world: set<ExpectationBase>): Graph<ExpectationBase>
    reads world`immediatePrerequisites
  {
    map e | e in world :: e.immediatePrerequisites
  }

  ghost function Satisfied(world: set<ExpectationBase>): set<ExpectationBase>
    reads world`callCount
  {
    set e | e in world && e.IsSatisfied()
  }

  /** Satisfied without a call: what FindUnsatisfiedPrerequisites looks through. */
  ghost function Transparent(world: set<ExpectationBase>): set<ExpectationBase>
    reads world`callCount
  {
    set e | e in world && e.IsSatisfied() && e.callCount == 0
  }

  ghost function Retired(world: set<ExpectationBase>): set<ExpectationBase>
    reads world`retired
  {
    set e | e in world && e.retired
  }

  class ExpectationBase {
    var immediatePrerequisites: set<ExpectationBase>
    var callCount: nat
    var retired: bool
    const minCalls: nat
    const maxCalls: nat
    const retiresOnSaturation: bool

    constructor (minCalls: nat, maxCalls: nat, retiresOnSaturation: bool)
      ensures immediatePrerequisites == {} && callCount == 0 && !retired
      ensures this.minCalls == minCalls && this.maxCalls == (if maxCalls >= minCalls then maxCalls else minCalls)
      ensures this.retiresOnSaturation == retiresOnSaturation
    {
      immediatePrerequisites, callCount, retired := {}, 0, false;
      this.minCalls := minCalls;
      this.maxCalls := if maxCalls >= minCalls then maxCalls else minCalls;
      this.retiresOnSaturation := retiresOnSaturation;
    }

    predicate IsSatisfied()
      reads this`callCount
    {
      minCalls <= callCount <= maxCalls
    }

    predicate IsSaturated()
      reads this`callCount
    {
      callCount >= maxCalls
    }

    /** True iff every immediate or indirect prerequisite is satisfied. */
    method AllPrerequisitesAreSatisfied(ghost world: set<ExpectationBase>) returns (ok: bool)
      requires this in world && Closed(GraphOf(world)) && Acyclic(GraphOf(world))
      ensures ok <==> Reach(GraphOf(world), this) <= Satisfied(world)
      ensures ok <==> forall e :: e in Reach(GraphOf(world), this) ==> e.minCalls <= e.callCount <= e.maxCalls
    {
      SatisfiedByCalls(world, Reach(GraphOf(world), this));
      hide Reaches, StackWeight, Weight, Share, Acyclic, IsSearch, HasRoom;
      ghost var g, sat := GraphOf(world), Satisfied(world);
      var expectations := [this];
      SearchStart(g, this, sat);
      while expectations != []
        invariant IsSearch(g, this, sat, expectations, {})
        decreases StackWeight(g, expectations)
      {
        ghost var weight := StackWeight(g, expectations);
        SearchPop(g, this, sat, expectations);
        var exp := expectations[|expectations| - 1];
        expectations := expectations[..|expectations| - 1];
        RoomForPrerequisites(g, expectations, exp);
        ReachInside(g, this, exp);

        var rest := exp.immediatePrerequisites;
        while rest != {}
          invariant rest <= g[exp] && IsSearch(g, this, sat, expectations, rest)
          invariant HasRoom(g, expectations, rest, Share(g, exp), weight)
        {
          var next :| next in rest;
          if !next.IsSatisfied() {
            return false;
          }
          SearchPush(g, this, sat, expectations, rest, next);
          RoomForOne(g, expectations, next, rest, Share(g, exp), weight);
          expectations := expectations + [next];
          rest := rest - {next};
        }
        RoomLeft(g, expectations, Share(g, exp), weight);
      }
      SearchEnd(g, this, sat);
      return true;
    }

    /** Adds the unsatisfied prerequisites that are reached through satisfied, uncalled expectations. */
    method FindUnsatisfiedPrerequisites(result: set<ExpectationBase>, ghost world: set<ExpectationBase>)
        returns (result': set<ExpectationBase>)
      requires this in world && Closed(GraphOf(world)) && Acyclic(GraphOf(world))
      ensures result' == result + Missing(GraphOf(world), this, Satisfied(world), Transparent(world))
    {
      ghost var g, sat := GraphOf(world), Satisfied(world);
      ghost var through := Transparent(world);
      assert g.Keys == world && through <= sat;
      hide *;
      result' := result;
      var expectations := [this];
      FindStart(g, this, sat, through, result);
      while expectations != []
        invariant IsFinding(g, this, sat, through, result, result', expectations, {})
        decreases StackWeight(g, expectations)
      {
        ghost var weight := StackWeight(g, expectations);
        FindPop(g, this, sat, through, result, result', expectations);
        var exp := expectations[|expectations| - 1];
        expectations := expectations[..|expectations| - 1];
        RoomForPrerequisites(g, expectations, exp);

        NodeOf(world, exp);
        var rest := exp.immediatePrerequisites;
        while rest != {}
          invariant rest <= g[exp]
          invariant IsFinding(g, this, sat, through, result, result', expectations, rest)
          invariant HasRoom(g, expectations, rest, Share(g, exp), weight)
        {
          var next :| next in rest;
          NodeOf(world, next);
          FindVisit(g, this, sat, through, result, result', expectations, rest, next);
          RoomForOne(g, expectations, next, rest, Share(g, exp), weight);
          if next.IsSatisfied() {
            if next.callCount == 0 {
              expectations := expectations + [next];
            }
          } else {
            result' := result' + {next};
          }
          rest := rest - {next};
        }
        RoomLeft(g, expectations, Share(g, exp), weight);
      }
      FindEnd(g, this, sat, through, result, result');
    }

    method Retire(ghost world: set<ExpectationBase>)
      requires this in world
      modifies this`retired
      ensures retired && Retired(world) == old(Retired(world)) + {this}
    {
      retired := true;
    }

    /** Retires every immediate or indirect prerequisite, and nothing else. */
    method RetireAllPreRequisites(ghost world: set<ExpectationBase>)
      requires this in world && Closed(GraphOf(world))
      requires IsDownward(GraphOf(world), Retired(world))
      modifies world`retired
      ensures Retired(world) == old(Retired(world)) + Reach(GraphOf(world), this)
      ensures forall e :: e in world ==> (e.retired <==> old(e.retired) || e in Reach(GraphOf(world), this))
      ensures IsDownward(GraphOf(world), Retired(world))
    {
      RetiredAre(world);
      ghost var g, retired0 := GraphOf(world), Retired(world);
      NodeOf(world, this);
      if retired {
        MarkedAlready(g, this, retired0);
        return;
      }
      var expectations := [this];
      FrontierStart(g, this, retired0);
      hide *;
      while expectations != []
        invariant IsFrontier(g, this, retired0, Retired(world), expectations, {})
        decreases Unmarked(g, Retired(world)), |expectations|
      {
        FrontierPop(g, this, retired0, Retired(world), expectations);
        ghost var unmarked, popped := Unmarked(g, Retired(world)), expectations[..|expectations| - 1];
        var exp := expectations[|expectations| - 1];
        expectations := expectations[..|expectations| - 1];

        NodeOf(world, exp);
        var rest := exp.immediatePrerequisites;
        while rest != {}
          invariant rest <= g[exp]
          invariant IsVisiting(g, this, retired0, Retired(world), expectations, exp, rest)
          invariant
            || Unmarked(g, Retired(world)) < unmarked
            || (Unmarked(g, Retired(world)) == unmarked && expectations == popped)
        {
          var next :| next in rest;
          NodeOf(world, next);
          if !next.retired {
            FrontierPush(g, this, retired0, Retired(world), expectations, exp, rest, next);
            next.Retire(world);
            expectations := expectations + [next];
          } else {
            FrontierSkip(g, this, retired0, Retired(world), expectations, exp, rest, next);
          }
          rest := rest - {next};
        }
        FrontierDone(g, this, retired0, Retired(world), expectations, exp);
      }
      FrontierEnd(g, this, retired0, Retired(world));
      RetiredAre(world);
    }

    method Require(prerequisite: ExpectationBase, ghost world: set<ExpectationBase>)
      requires this in world
      modifies this`immediatePrerequisites
      ensures immediatePrerequisites == old(immediatePrerequisites) + {prerequisite}
      ensures GraphOf(world) == old(GraphOf(world))[this := old(immediatePrerequisites) + {prerequisite}]
    {
      immediatePrerequisites := immediatePrerequisites + {prerequisite};
    }

    /** Whether a call with matching arguments is for this expectation. */
    method ShouldHandleArguments(matches: bool, ghost world: set<ExpectationBase>) returns (handles: bool)
      requires this in world && Closed(GraphOf(world)) && Acyclic(GraphOf(world))
      ensures handles <==>
                && !retired && matches
                && forall e :: e in Reach(GraphOf(world), this) ==> e.minCalls <= e.callCount <= e.maxCalls
    {
      if retired {
        return false;
      }
      var ok := AllPrerequisitesAreSatisfied(world);
      return ok && matches;
    }

    /** Counts a call, and says whether the expectation was saturated before it. */
    method IncrementCallCount(ghost world: set<ExpectationBase>) returns (excessive: bool)
      requires this in world && minCalls <= maxCalls
      modifies this`callCount
      ensures callCount == old(callCount) + 1 && excessive == (old(callCount) >= maxCalls)
      ensures SameBut(this, old(Satisfied(world)), Satisfied(world))
      ensures SameBut(this, old(Transparent(world)), Transparent(world)) && this !in Transparent(world)
      ensures excessive ==> this !in Satisfied(world)
      ensures !excessive && IsSaturated() ==> this in Satisfied(world)
    {
      excessive := IsSaturated();
      callCount := callCount + 1;
    }

    /** Counts a call; unless it is one too many, retires what had to come first, and perhaps itself. */
    method GetActionForArguments(ghost world: set<ExpectationBase>) returns (excessive: bool)
      requires this in world && Consistent(world)
      requires !retired && Reach(GraphOf(world), this) <= Satisfied(world)
      modifies this`callCount, world`retired
      ensures Consistent(world)
      ensures callCount == old(callCount) + 1 && excessive == (old(callCount) >= maxCalls)
      ensures excessive ==> Retired(world) == old(Retired(world))
      ensures !excessive && !(retiresOnSaturation && IsSaturated()) ==>
                Retired(world) == old(Retired(world)) + Reach(GraphOf(world), this)
      ensures !excessive && retiresOnSaturation && IsSaturated() ==>
                Retired(world) == old(Retired(world)) + Reach(GraphOf(world), this) + {this}
      ensures forall e :: e in world ==>
                (e.retired <==> || old(e.retired)
                                || (!excessive && e in Reach(GraphOf(world), this))
                                || (!excessive && e == this && retiresOnSaturation && callCount >= maxCalls))
    {
      RetiredAre(world);
      ghost var g, sat, through, retired0 := GraphOf(world), Satisfied(world), Transparent(world), Retired(world);
      assert Closed(g) && IsDownward(g, retired0);
      hide *;
      NodeOf(world, this);
      excessive := IncrementCallCount(world);
      if excessive {
        ExcessKeepsConsistent(g, sat, through, retired0, this, Satisfied(world), Transparent(world));
        RetiredAre(world);
        return;
      }
      RetireAllPreRequisites(world);
      ghost var self: set<ExpectationBase> := if retiresOnSaturation && IsSaturated() then {this} else {};
      CallKeepsConsistent(g, sat, through, retired0, this, Satisfied(world), Transparent(world), self);
      assert retired0 + Reach(g, this) + {} == retired0 + Reach(g, this);
      if retiresOnSaturation && IsSaturated() {
        Retire(world);
      }
      RetiredAre(world);
    }
  }

  /** An expectation is satisfied by a number of calls within its bounds. */
  lemma SatisfiedByCalls(world: set<ExpectationBase>, s: set<ExpectationBase>)
    requires s <= world
    ensures s <= Satisfied(world) <==> forall e :: e in s ==> e.minCalls <= e.callCount <= e.maxCalls
  {
  }

  lemma RetiredAre(world: set<ExpectationBase>)
    ensures forall e :: e in world ==> (e.retired <==> e in Retired(world))
  {
  }

  /**
   What FindUnsatisfiedPrerequisites adds: those with too few or too many calls to which a path of
   prerequisites leads on which all others need no calls and have had none.
   */
  lemma MissingByCalls(world: set<ExpectationBase>, x: ExpectationBase, e: ExpectationBase)
    requires x in world && e in world && Closed(GraphOf(world))
    ensures e in Missing(GraphOf(world), x, Satisfied(world), Transparent(world)) <==>
              && !(e.minCalls <= e.callCount <= e.maxCalls)
              && exists path: seq<ExpectationBase> ::
                   IsPath(GraphOf(world), path) && path[0] == x && path[|path| - 1] == e && NeedsNoCalls(path, x)
  {
    var g, sat, through := GraphOf(world), Satisfied(world), Transparent(world);
    MissingByPath<ExpectationBase>(g, x, sat, through, e);
    forall path: seq<ExpectationBase> | IsPath(g, path)
      ensures GoesThrough(path, x, through) <==> NeedsNoCalls(path, x)
    {
      assert forall k :: 0 <= k < |path| - 1 ==> path[k] in g;
      assert forall k :: 0 <= k < |path| - 1 ==>
               (path[k] in through <==> path[k].minCalls == path[k].callCount == 0);
    }
  }

  ghost predicate NeedsNoCalls(path: seq<ExpectationBase>, x: ExpectationBase)
    reads path`callCount
  {
    forall k :: 0 <= k < |path| - 1 ==> path[k] == x || path[k].minCalls == path[k].callCount == 0
  }

  /** What mock calls keep true of the expectations in a world. */
  ghost predicate Consistent(world: set<ExpectationBase>)
    reads world`immediatePrerequisites, world`callCount, world`retired
  {
    && IsConsistent(GraphOf(world), Satisfied(world), Transparent(world), Retired(world))
    && forall e :: e in world ==> e.minCalls <= e.maxCalls
  }

  /** Expectations as they are set, before any call. */
  lemma FreshIsConsistent(world: set<ExpectationBase>)
    requires Closed(GraphOf(world)) && Acyclic(GraphOf(world))
    requires forall e :: e in world ==> e.minCalls <= e.maxCalls && e.callCount == 0 && !e.retired
    ensures Consistent(world)
  {
  }

  /** Then what explains a refused call names something exactly when some prerequisite is unsatisfied. */
  lemma ExplanationIsComplete(world: set<ExpectationBase>, e: ExpectationBase)
    requires Consistent(world) && e in world
    ensures Missing(GraphOf(world), e, Satisfied(world), Transparent(world)) == {} <==>
              Reach(GraphOf(world), e) <= Satisfied(world)
  {
    ConsistentIsSettled(GraphOf(world), Satisfied(world), Transparent(world), Retired(world));
    VisibleSuffices(GraphOf(world), e, Satisfied(world), Transparent(world));
  }

  class Sequence {
    var lastExpectation: ExpectationBase?

    constructor ()
      ensures lastExpectation == null
    {
      lastExpectation := null;
    }

    /**
     Makes the last expectation of the sequence a prerequisite.  All is well exactly as long as the new
     one is not already a prerequisite of the last, and has not retired or been called enough before it.
     */
    method AddExpectation(expectation: ExpectationBase, ghost world: set<ExpectationBase>)
      requires expectation in world && Consistent(world)
      requires lastExpectation != null ==> lastExpectation in world
      modifies this, expectation`immediatePrerequisites
      ensures lastExpectation == expectation
      ensures forall e :: e in expectation.immediatePrerequisites <==>
                e in old(expectation.immediatePrerequisites) || (e == old(lastExpectation) && e != expectation)
      ensures Consistent(world) <==>
                || old(lastExpectation) == null || old(lastExpectation) == expectation
                || (&& expectation !in old(Reach<ExpectationBase>(GraphOf(world), lastExpectation))
                    && (expectation.retired || (expectation.IsSatisfied() && expectation.callCount > 0) ==>
                          old(lastExpectation).retired))
    {
      hide Acyclic, Reach, Closed, IsDownward, IsConsistent, Satisfied, Transparent, Retired;
      if lastExpectation != expectation {
        if lastExpectation != null {
          ghost var g := GraphOf(world);
          var last: ExpectationBase := lastExpectation;
          NodeOf(world, expectation);
          NodeOf(world, last);
          NewEdgeKeepsConsistentIff<ExpectationBase>(
            g, Satisfied(world), Transparent(world), Retired(world), expectation, last);
          hide *;
          expectation.Require(last, world);
        }
        lastExpectation := expectation;
      }
    }
  }

  /** In particular all is well with an expectation that nobody requires yet, as a new one is. */
  lemma NobodyRequiresFresh(world: set<ExpectationBase>, e: ExpectationBase, last: ExpectationBase)
    requires forall other :: other in world ==> e !in other.immediatePrerequisites
    ensures e !in Reach(GraphOf(world), last)
  {
    var g: Graph<ExpectationBase> := GraphOf(world);
    if n: nat :| ReachesIn(g, last, e, n) {
      NothingLeadsTo<ExpectationBase>(g, last, e, n);
    }
  }

  /** What the snapshots of a world say of one of its expectations. */
  lemma NodeOf(world: set<ExpectationBase>, e: ExpectationBase)
    requires e in world
    ensures e in GraphOf(world) && GraphOf(world)[e] == e.immediatePrerequisites
    ensures e.retired <==> e in Retired(world)
    ensures e.IsSatisfied() <==> e in Satisfied(world)
    ensures e.IsSatisfied() && e.callCount == 0 <==> e in Transparent(world)
    ensures Retired(world) <= world && GraphOf(world).Keys == world
  {
  }
}
