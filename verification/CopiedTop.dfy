/**
 What the rules do as coded.  module/game_manager/include/GameInstance.h:61 copies the record on top
 before the visit and tests the flags of the copy, so it sees what a visitor sets one pass late.  This
 is the recursive semantics of that loop, and when it is the one that was meant.
 */
module CopiedTop {
  import opened Wrappers
  import opened Expressions
  import opened Tokenizer
  import opened RuleSemantics

  /** Runs a chain: each Add twice, each loop as below. */
  ghost function ExecByCopy(apply: Attribution, chain: Rule, env: Env): (o: Outcome)
    requires Scoped(chain, |env.context|)
    ensures |o.env.context| == |env.context|
    decreases chain, 1, 0
  {
    match chain
    case Null => Done(env)
    case Add(_, _, _, next) =>
      var first := AddOne(apply, chain, env);
      if first.Thrown? then first
      else
        var second := AddOne(apply, chain, first.env);
        if second.Thrown? then second else ExecByCopy(apply, next, second.env)
    case ForEach(_, _, _, next) =>
      var o := LoopByCopy(apply, chain, env);
      if o.Thrown? then o else ExecByCopy(apply, next, o.env)
  }

  /** The first element is bound, and nothing runs on it. */
  ghost function LoopByCopy(apply: Attribution, each: Rule, env: Env): (o: Outcome)
    requires each.ForEach? && env.context != []
    ensures |o.env.context| == |env.context|
    decreases each, 0, |each.elemList| + 1
  {
    if !each.elem.ExpString? then Thrown(env)
    else if each.elemList == [] then Done(Unbind(env, each.elem.str))
    else RoundsByCopy(apply, each, 1, Bind(env, each.elem.str, each.elemList[0]))
  }

  /** The nested chain runs for each of the others, and once more after the variable has been erased. */
  ghost function RoundsByCopy(apply: Attribution, each: Rule, i: nat, env: Env): (o: Outcome)
    requires each.ForEach? && i <= |each.elemList| && env.context != []
    ensures |o.env.context| == |env.context|
    decreases each, 0, |each.elemList| - i
  {
    if !each.elem.ExpString? then Thrown(env)
    else if i == |each.elemList| then
      var o := ExecByCopy(apply, each.nested, Unbind(env, each.elem.str));
      if o.Thrown? then o else Done(Unbind(o.env, each.elem.str))
    else
      var o := ExecByCopy(apply, each.nested, Bind(env, each.elem.str, each.elemList[i]));
      if o.Thrown? then o else RoundsByCopy(apply, each, i + 1, o.env)
  }

  // ----- What becomes of an Add --------------------------------------------------------------------

  /** An Add that does not throw adds a number to a number. */
  lemma AddOneAddsValue(apply: Attribution, add: Rule, env: Env)
    requires add.Add?
    ensures var o, v := AddOne(apply, add, env), Evaluate(apply, add.value, env);
            var total := if add.to.ExpString? then Tokens(add.to.str) else [];
            if add.to.ExpString? && IsTotal(total, env.variables) && v.Some? && v.value.ExpInt?
            then o == Done(env.(variables := Plus(total, v.value.i, env.variables)))
            else o == Thrown(env)
  {
  }

  /** An Add is carried out twice, with any value, before any rules that follow. */
  lemma CopyAddsTwice(apply: Attribution, add: Rule, env: Env)
    requires add.Add? && Scoped(add, |env.context|) && AddOne(apply, add, env).Done?
    ensures var total, first := Tokens(add.to.str), AddOne(apply, add, env).env;
            var v, w := Evaluate(apply, add.value, env), Evaluate(apply, add.value, first);
            && v.Some? && v.value.ExpInt? && IsTotal(total, env.variables)
            && Exec(apply, add, env) == Exec(apply, add.next, env.(variables := Plus(total, v.value.i, env.variables)))
            && ExecByCopy(apply, add, env) ==
                 if w.Some? && w.value.ExpInt?
                 then ExecByCopy(apply, add.next, env.(variables := Plus(total, v.value.i + w.value.i, env.variables)))
                 else Thrown(first)
  {
    AddOneAddsValue(apply, add, env);
    var total, first := Tokens(add.to.str), AddOne(apply, add, env).env;
    var v, w := Evaluate(apply, add.value, env), Evaluate(apply, add.value, first);
    hide Tokens, IsTotal, Plus, Evaluate, AddOne;
    PlusPlus(total, v.value.i, if w.Some? && w.value.ExpInt? then w.value.i else 0, env.variables);
    AddOneAddsValue(apply, add, first);
  }

  /** In particular an Add of a literal takes a total t to t + n as meant, and to t + 2n as coded. */
  lemma AddOfLiteral(apply: Attribution, add: Rule, t: int, n: int, env: Env)
    requires add.Add? && Scoped(add, |env.context|) && add.to.ExpString? && add.value == ExpInt(n)
    requires Resolve(Tokens(add.to.str), env.variables) == Some(ExpInt(t))
    ensures var total := Tokens(add.to.str);
            && Exec(apply, add, env) ==
                 Exec(apply, add.next, env.(variables := Overwrite(total, ExpInt(t + n), env.variables)))
            && ExecByCopy(apply, add, env) ==
                 ExecByCopy(apply, add.next, env.(variables := Overwrite(total, ExpInt(t + 2 * n), env.variables)))
  {
    AddOneAddsValue(apply, add, env);
    hide Tokens, Resolve, AddOne, Overwrite;
    CopyAddsTwice(apply, add, env);
  }

  /** Otherwise an Add of a literal throws: its target is no path of the variables, or names no number. */
  lemma AddToNothingThrows(apply: Attribution, add: Rule, n: int, env: Env)
    requires add.Add? && Scoped(add, |env.context|) && add.value == ExpInt(n)
    requires add.to.ExpString? ==>
               var to := Resolve(Tokens(add.to.str), env.variables); to.None? || !to.value.ExpInt?
    ensures Exec(apply, add, env) == ExecByCopy(apply, add, env) == Thrown(env)
  {
  }

  /** So an Add alone does as meant exactly if it throws, or would add nothing when it is carried out again. */
  lemma AddAsMeantIff(apply: Attribution, add: Rule, env: Env)
    requires add.Add? && add.next == Null
    ensures Scoped(add, |env.context|)
    ensures var first := AddOne(apply, add, env);
            ExecByCopy(apply, add, env) == Exec(apply, add, env) <==>
              first.Thrown? || Evaluate(apply, add.value, first.env) == Some(ExpInt(0))
  {
    assert Scoped(add, |env.context|) by {
      assert !HasLoop(Null);
    }
    if AddOne(apply, add, env).Done? {
      CopyAddsTwice(apply, add, env);
      var total, first := Tokens(add.to.str), AddOne(apply, add, env).env;
      var v, w := Evaluate(apply, add.value, env), Evaluate(apply, add.value, first);
      if w.Some? && w.value.ExpInt? {
        hide Tokens, Resolve, Overwrite, Evaluate, Plus;
        PlusInjective(total, v.value.i, v.value.i + w.value.i, env.variables);
      }
    }
  }

  lemma PlusInjective(total: seq<string>, v: int, w: int, variables: Entries)
    requires IsTotal(total, variables)
    ensures Plus(total, v, variables) == Plus(total, w, variables) <==> v == w
  {
    var was := Resolve(total, variables).value.i;
    StoreThenGet(total, ExpInt(was + v), variables);
    StoreThenGet(total, ExpInt(was + w), variables);
  }

  // ----- What becomes of a loop --------------------------------------------------------------------

  /** The nested chain takes one state to the next with the variable bound to v. */
  ghost predicate IsRoundByCopy(apply: Attribution, each: Rule, v: Expression, before: Env, after: Env)
    requires each.ForEach? && each.elem.ExpString?
  {
    before.context != [] && ExecByCopy(apply, each.nested, Bind(before, each.elem.str, v)) == Done(after)
  }

  /** And with the variable erased. */
  ghost predicate IsUnboundRound(apply: Attribution, each: Rule, before: Env, after: Env)
    requires each.ForEach? && each.elem.ExpString?
  {
    && before.context != [] && after.context != []
    && ExecByCopy(apply, each.nested, Unbind(before, each.elem.str)) == Done(after)
  }

  /** The states between the runs of the nested chain: for the elements from i on, then without any. */
  ghost predicate AreRoundsByCopy(apply: Attribution, each: Rule, i: nat, envs: seq<Env>)
    requires each.ForEach? && each.elem.ExpString? && i <= |each.elemList|
  {
    var n := |each.elemList| - i;
    && |envs| == n + 2
    && (forall k :: 0 < k <= n ==> IsRoundByCopy(apply, each, each.elemList[i + k - 1], envs[k - 1], envs[k]))
    && IsUnboundRound(apply, each, envs[n], envs[n + 1])
  }

  /** From element 1 on: a loop over n elements runs its nested chain n - 1 times bound and once unbound. */
  lemma {:induction false} CopyRunsRestThenUnbound(apply: Attribution, each: Rule, i: nat, env: Env)
      returns (envs: seq<Env>)
    requires each.ForEach? && i <= |each.elemList| && env.context != []
    requires RoundsByCopy(apply, each, i, env).Done?
    ensures each.elem.ExpString? && AreRoundsByCopy(apply, each, i, envs) && envs[0] == env
    ensures envs[|envs| - 1].context != []
    ensures RoundsByCopy(apply, each, i, env).env == Unbind(envs[|envs| - 1], each.elem.str)
    decreases |each.elemList| - i
  {
    if i == |each.elemList| {
      envs := [env, ExecByCopy(apply, each.nested, Unbind(env, each.elem.str)).env];
    } else {
      var o := ExecByCopy(apply, each.nested, Bind(env, each.elem.str, each.elemList[i]));
      var rest := CopyRunsRestThenUnbound(apply, each, i + 1, o.env);
      assert IsRoundByCopy(apply, each, each.elemList[i], env, o.env);
      hide IsRoundByCopy, IsUnboundRound, RoundsByCopy, ExecByCopy;
      RoundBefore(apply, each, i, env, rest);
      envs := [env] + rest;
    }
  }

  lemma RoundBefore(apply: Attribution, each: Rule, i: nat, env: Env, rest: seq<Env>)
    requires each.ForEach? && each.elem.ExpString? && i < |each.elemList| && AreRoundsByCopy(apply, each, i + 1, rest)
    requires IsRoundByCopy(apply, each, each.elemList[i], env, rest[0])
    ensures AreRoundsByCopy(apply, each, i, [env] + rest)
  {
    hide IsRoundByCopy, IsUnboundRound;
    var envs, n := [env] + rest, |each.elemList| - i;
    forall k | 0 < k <= n
      ensures IsRoundByCopy(apply, each, each.elemList[i + k - 1], envs[k - 1], envs[k])
    {
      if k > 1 {
        assert IsRoundByCopy(apply, each, each.elemList[i + 1 + (k - 1) - 1], rest[k - 2], rest[k - 1]);
      }
    }
  }

  // ----- What becomes of a loop that adds up -------------------------------------------------------

  lemma UnbindTwice(env: Env, name: string)
    requires env.context != []
    ensures Unbind(Unbind(env, name), name) == Unbind(env, name)
  {
    var n := |env.context| - 1;
    assert env.context[n] - {name} - {name} == env.context[n] - {name};
    assert Unbind(Unbind(env, name), name).context == Unbind(env, name).context;
  }

  lemma UnbindTwiceWith(env: Env, name: string)
    requires env.context != []
    ensures Unbind(env, name).context != [] && Unbind(env, name).variables == env.variables
    ensures forall after ::
              Unbind(Unbind(env, name).(variables := after), name) == Unbind(env, name).(variables := after)
  {
    UnbindTwice(env, name);
  }

  ghost predicate IsNumber(exp: Option<Expression>) {
    exp.Some? && exp.value.ExpInt?
  }

  /** The nested rule of a sum loop adds the variable twice while it is bound. */
  lemma CopiedSumRound(apply: Attribution, loop: Rule, total: seq<string>, v: Expression, env: Env)
    requires IsSumLoop(loop, total) && env.context != [] && v.ExpInt? && IsTotal(total, env.variables)
    ensures var bound := Bind(env, loop.elem.str, v);
            ExecByCopy(apply, loop.nested, bound) == Done(bound.(variables := Plus(total, v.i + v.i, env.variables)))
  {
    hide Tokens, Resolve, Overwrite, Evaluate, IsAttribute, AddOne, Plus;
    var name, after := loop.elem.str, env.(variables := Plus(total, v.i, env.variables));
    AddsVariable(apply, loop, total, v, env);
    PlusPlus(total, v.i, v.i, env.variables);
    AddsVariable(apply, loop, total, v, after);
  }

  /** After it was erased, the rule adds what the variable names outside, now and then again; or it throws. */
  lemma UnboundRound(apply: Attribution, loop: Rule, total: seq<string>, env: Env)
    requires IsSumLoop(loop, total) && env.context != [] && IsTotal(total, env.variables)
    ensures var o, v, w := ExecByCopy(apply, loop.nested, env), Now(loop, env), Again(loop, total, env);
            if IsNumber(v) && IsNumber(w)
            then o == Done(env.(variables := Plus(total, v.value.i + w.value.i, env.variables)))
            else o.Thrown?
  {
    hide IsSumLoop, Tokens, Resolve, Overwrite, Lookup, Evaluate, AddOne, Plus, IsTotal, ExecByCopy;
    SumRuleAddsNow(apply, loop, total, env);
    AddAlone(apply, loop.nested, env);
    AddOneAddsValue(apply, loop.nested, env);
    if IsNumber(Now(loop, env)) {
      var v, w := Now(loop, env).value.i, Again(loop, total, env);
      var after := env.(variables := Plus(total, v, env.variables));
      PlusPlus(total, v, if IsNumber(w) then w.value.i else 0, env.variables);
      SumRuleAddsNow(apply, loop, total, after);
      AddOneAddsValue(apply, loop.nested, after);
    }
  }

  lemma AddAlone(apply: Attribution, add: Rule, env: Env)
    requires add.Add? && add.next == Null && !HasLoop(add)
    ensures ExecByCopy(apply, add, env) ==
            var first := AddOne(apply, add, env);
            if first.Thrown? then first else AddOne(apply, add, first.env)
  {
    hide AddOne;
    assert forall e :: ExecByCopy(apply, Null, e) == Done(e);
  }

  lemma SumRuleAddsNow(apply: Attribution, loop: Rule, total: seq<string>, env: Env)
    requires IsSumLoop(loop, total)
    ensures loop.ForEach? && loop.elem.ExpString?
    ensures loop.nested.Add? && loop.nested.next == Null && !HasLoop(loop.nested)
    ensures loop.nested.to.ExpString? && Tokens(loop.nested.to.str) == total
    ensures Evaluate(apply, loop.nested.value, env) == Now(loop, env)
  {
    NameEvaluates(apply, env, loop.elem.str);
  }

  /** What the variable of a loop names in a state, and what it does once that has been added to the total. */
  ghost function Now(loop: Rule, env: Env): Option<Expression>
    requires loop.ForEach? && loop.elem.ExpString?
  {
    Lookup([loop.elem.str], env)
  }

  ghost function Again(loop: Rule, total: seq<string>, env: Env): Option<Expression>
    requires loop.ForEach? && loop.elem.ExpString? && IsTotal(total, env.variables)
  {
    if IsNumber(Now(loop, env)) then Now(loop, env.(variables := Plus(total, Now(loop, env).value.i, env.variables)))
    else None
  }

  /** The state in which the nested rule runs once more, unbound. */
  ghost function Unbound(loop: Rule, total: seq<string>, sum: int, env: Env): Env
    requires loop.ForEach? && loop.elem.ExpString? && env.context != [] && IsTotal(total, env.variables)
  {
    Unbind(env, loop.elem.str).(variables := Plus(total, sum + sum, env.variables))
  }

  /** What is left of a loop then. */
  ghost function LastRound(apply: Attribution, loop: Rule, env: Env): Outcome
    requires loop.ForEach? && loop.elem.ExpString? && env.context != []
  {
    var o := ExecByCopy(apply, loop.nested, env);
    if o.Thrown? then o else Done(Unbind(o.env, loop.elem.str))
  }

  /** One round more: another element, twice. */
  lemma OneElementMore(loop: Rule, total: seq<string>, v: Expression, sum: int, env: Env)
    requires loop.ForEach? && loop.elem.ExpString? && env.context != [] && v.ExpInt? && IsTotal(total, env.variables)
    ensures var next := Bind(env, loop.elem.str, v).(variables := Plus(total, v.i + v.i, env.variables));
            && next.context != [] && IsTotal(total, next.variables)
            && Unbound(loop, total, sum, next) == Unbound(loop, total, v.i + sum, env)
  {
    PlusPlus(total, v.i + v.i, sum + sum, env.variables);
    BindKeepsRest(env, loop.elem.str, v, Plus(total, v.i + v.i, env.variables));
  }

  lemma {:induction false} CopiedSumRounds(apply: Attribution, loop: Rule, total: seq<string>, i: nat, env: Env)
    requires IsSumLoop(loop, total) && env.context != [] && i <= |loop.elemList| && IsTotal(total, env.variables)
    ensures Unbound(loop, total, Sum(loop.elemList[i..]), env).context != []
    ensures RoundsByCopy(apply, loop, i, env) ==
              LastRound(apply, loop, Unbound(loop, total, Sum(loop.elemList[i..]), env))
    decreases |loop.elemList| - i
  {
    hide *;
    SumLoopShape(loop, total);
    if i == |loop.elemList| {
      LastOfRounds(apply, loop, total, env);
    } else {
      var v := loop.elemList[i];
      SumNext(loop.elemList, i);
      OneElementMore(loop, total, v, Sum(loop.elemList[i + 1..]), env);
      CopiedSumRoundGoesOn(apply, loop, total, i, env);
      var next := Bind(env, loop.elem.str, v).(variables := Plus(total, v.i + v.i, env.variables));
      CopiedSumRounds(apply, loop, total, i + 1, next);
    }
  }

  lemma SumNext(list: seq<Expression>, i: nat)
    requires i < |list| && forall k :: 0 <= k < |list| ==> list[k].ExpInt?
    ensures Sum(list[i..]) == list[i].i + Sum(list[i + 1..])
  {
    assert list[i..][1..] == list[i + 1..];
  }

  lemma CopiedSumRoundGoesOn(apply: Attribution, loop: Rule, total: seq<string>, i: nat, env: Env)
    requires IsSumLoop(loop, total) && env.context != [] && i < |loop.elemList| && IsTotal(total, env.variables)
    ensures var v := loop.elemList[i];
            var next := Bind(env, loop.elem.str, v).(variables := Plus(total, v.i + v.i, env.variables));
            next.context != [] && RoundsByCopy(apply, loop, i, env) == RoundsByCopy(apply, loop, i + 1, next)
  {
    hide Plus, ExecByCopy, IsSumLoop, Tokens, IsTotal, Resolve;
    SumLoopShape(loop, total);
    CopiedSumRound(apply, loop, total, loop.elemList[i], env);
  }

  lemma LastOfRounds(apply: Attribution, loop: Rule, total: seq<string>, env: Env)
    requires IsSumLoop(loop, total) && env.context != [] && IsTotal(total, env.variables)
    ensures var n := |loop.elemList|;
            var last := Unbound(loop, total, Sum(loop.elemList[n..]), env);
            last.context != [] && RoundsByCopy(apply, loop, n, env) == LastRound(apply, loop, last)
  {
    hide ExecByCopy, Plus, IsSumLoop, Tokens;
    SumLoopShape(loop, total);
    PlusPlus(total, 0, 0, env.variables);
  }

  /** As coded, a sum loop adds every element but the first twice, and then runs its rule once more unbound. */
  lemma CopiedSumLoop(apply: Attribution, loop: Rule, total: seq<string>, env: Env)
    requires IsSumLoop(loop, total) && env.context != [] && loop.elemList != [] && IsTotal(total, env.variables)
    ensures Unbound(loop, total, Sum(loop.elemList[1..]), env).context != []
    ensures LoopByCopy(apply, loop, env) == LastRound(apply, loop, Unbound(loop, total, Sum(loop.elemList[1..]), env))
  {
    SumLoopShape(loop, total);
    var name, first := loop.elem.str, loop.elemList[0];
    BindThenUnbind(env, name, first);
    CopiedSumRounds(apply, loop, total, 1, Bind(env, name, first));
  }

  /**
   A sum loop does as meant exactly if its list is empty, or its variable also names a number outside
   that happens to make up for the element left out and the doubling.
   */
  lemma SumLoopAsMeantIff(apply: Attribution, loop: Rule, total: seq<string>, env: Env)
    requires IsSumLoop(loop, total) && env.context != [] && loop.next == Null && IsTotal(total, env.variables)
    ensures Exec(apply, loop, env).Done?
    ensures ExecByCopy(apply, loop, env) == Exec(apply, loop, env) <==>
              || loop.elemList == []
              || var rest := Sum(loop.elemList[1..]);
                 var last := Unbound(loop, total, rest, env);
                 && IsTotal(total, last.variables) && IsNumber(Now(loop, last)) && IsNumber(Again(loop, total, last))
                 && rest + rest + Now(loop, last).value.i + Again(loop, total, last).value.i == Sum(loop.elemList)
  {
    SumLoopShape(loop, total);
    NothingFollows(apply, loop, env);
    var list := loop.elemList;
    SumLoopAddsTheSum(apply, loop, total, 0, env);
    assert list[0..] == list;
    if list != [] {
      CopiedSumLoop(apply, loop, total, env);
      hide *;
      SameOutcomeIff(apply, loop, total, Sum(list[1..]), Sum(list), env);
    }
  }

  lemma SameOutcomeIff(apply: Attribution, loop: Rule, total: seq<string>, rest: int, sum: int, env: Env)
    requires IsSumLoop(loop, total) && env.context != [] && IsTotal(total, env.variables)
    ensures var last := Unbound(loop, total, rest, env);
            && last.context != [] && IsTotal(total, last.variables)
            && (LastRound(apply, loop, last) ==
                  Done(Unbind(env, loop.elem.str).(variables := Plus(total, sum, env.variables))) <==>
                && IsNumber(Now(loop, last)) && IsNumber(Again(loop, total, last))
                && rest + rest + Now(loop, last).value.i + Again(loop, total, last).value.i == sum)
  {
    var name, last := loop.elem.str, Unbound(loop, total, rest, env);
    PlusPlus(total, rest + rest, 0, env.variables);
    UnbindTwiceWith(env, name);
    UnboundRound(apply, loop, total, last);
    hide Plus, Unbind, IsTotal, Now, Again, Tokens, IsSumLoop, ExecByCopy;
    var v, w := Now(loop, last), Again(loop, total, last);
    if IsNumber(v) && IsNumber(w) {
      var more := v.value.i + w.value.i;
      PlusPlus(total, rest + rest, more, env.variables);
      PlusInjective(total, rest + rest + more, sum, env.variables);
      SameVariables(Unbind(env, name), Plus(total, rest + rest + more, env.variables), Plus(total, sum, env.variables));
    }
  }

  /** A loop with nothing after it is all there is to its chain. */
  lemma NothingFollows(apply: Attribution, loop: Rule, env: Env)
    requires loop.ForEach? && loop.next == Null && env.context != []
    ensures Exec(apply, loop, env) == Iterate(apply, loop, 0, env)
    ensures ExecByCopy(apply, loop, env) == LoopByCopy(apply, loop, env)
  {
    assert forall e :: Exec(apply, Null, e) == Done(e) && ExecByCopy(apply, Null, e) == Done(e);
  }

  lemma SameVariables(env: Env, a: Entries, b: Entries)
    ensures env.(variables := a) == env.(variables := b) <==> a == b
  {
  }

  /** If the total goes by another name, what the variable names outside can be told from the start. */
  lemma OutsideIsSteady(loop: Rule, total: seq<string>, sum: int, env: Env)
    requires loop.ForEach? && loop.elem.ExpString? && env.context != []
    requires IsTotal(total, env.variables) && total[0] != loop.elem.str
    ensures var last, outside := Unbound(loop, total, sum, env), Now(loop, Unbind(env, loop.elem.str));
            && IsTotal(total, last.variables) && Now(loop, last) == outside
            && (IsNumber(outside) ==> Again(loop, total, last) == outside)
  {
    var name, was := loop.elem.str, Resolve(total, env.variables).value.i;
    var last := Unbound(loop, total, sum, env);
    PlusPlus(total, sum + sum, 0, env.variables);
    StoreElsewhere(total, [name], ExpInt(was + sum + sum), env.variables);
    if IsNumber(Now(loop, last)) {
      var v := Resolve(total, last.variables).value.i + Now(loop, last).value.i;
      StoreElsewhere(total, [name], ExpInt(v), last.variables);
    }
  }

  /** So a sum loop whose variable names no number outside throws where it should add, unless its list is empty. */
  lemma UnknownOutsideThrows(apply: Attribution, loop: Rule, total: seq<string>, env: Env)
    requires IsSumLoop(loop, total) && env.context != [] && loop.next == Null && IsTotal(total, env.variables)
    requires total[0] != loop.elem.str && !IsNumber(Now(loop, Unbind(env, loop.elem.str)))
    ensures Exec(apply, loop, env).Done?
    ensures if loop.elemList == [] then ExecByCopy(apply, loop, env) == Exec(apply, loop, env)
            else ExecByCopy(apply, loop, env).Thrown?
  {
    SumLoopShape(loop, total);
    SumLoopAsMeantIff(apply, loop, total, env);
    if loop.elemList != [] {
      var rest := Sum(loop.elemList[1..]);
      CopiedSumLoop(apply, loop, total, env);
      OutsideIsSteady(loop, total, rest, env);
      NothingFollows(apply, loop, env);
      hide IsSumLoop, Tokens, Resolve, Lookup, Evaluate, AddOne, Plus, IsTotal, ExecByCopy, Exec, Unbind, Unbound;
      UnboundRound(apply, loop, total, Unbound(loop, total, rest, env));
    }
  }

  /** An input on which it does: a loop over one element whose variable is a fresh name. */
  lemma FreshVariableThrows() returns (loop: Rule, env: Env)
    ensures IsSumLoop(loop, ["total"]) && loop.next == Null && loop.elemList == [ExpInt(1)]
    ensures env.context != [] && IsTotal(["total"], env.variables)
    ensures forall apply :: Exec(apply, loop, env).Done? && ExecByCopy(apply, loop, env).Thrown?
  {
    var total, add := ["total"], Add(ExpString("total"), ExpString("x"), Null, Null);
    loop := ForEach([ExpInt(1)], ExpString("x"), add, Null);
    env := Env(map[], map["total" := ExpInt(0)], [map[]]);
    NamesAreTokens();
    assert Resolve(total, env.variables) == Some(ExpInt(0));
    assert total[0][0] != "x"[0];
    FreshIsNothing(env);
    hide Exec, ExecByCopy, Tokens, Resolve, Lookup, IsAttribute;
    forall apply
      ensures Exec(apply, loop, env).Done? && ExecByCopy(apply, loop, env).Thrown?
    {
      UnknownOutsideThrows(apply, loop, total, env);
    }
  }

  lemma FreshIsNothing(env: Env)
    requires env == Env(map[], map["total" := ExpInt(0)], [map[]])
    ensures Lookup(["x"], Unbind(env, "x")) == None
  {
    assert "total"[0] != "x"[0];
    var inner: Entries := map[];
    assert Unbind(env, "x").context == [inner] && [inner][..0] == [];
  }

  lemma NamesAreTokens()
    ensures Tokens("total") == ["total"] && Tokens("x") == ["x"] && !IsAttribute("x")
  {
    TokensWithoutCut("total");
    TokensWithoutCut("x");
  }
}
