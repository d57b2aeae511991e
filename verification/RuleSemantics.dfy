/**
 What the rules mean: name lookup and expression evaluation
 (module/game_manager/src/DSLInterpreter.cpp:320-352, 396-427) and a recursive semantics of the
 ForEach and Add rules (:525-580) as their visitors mean them.
 */
module RuleSemantics {
  import opened Wrappers
  import opened Expressions
  import opened Tokenizer

  /** The part of the game state rules read and write; the last context is the innermost scope. */
  datatype Env = Env(constants: Entries, variables: Entries, context: seq<Entries>)

  // ----- Lookup ------------------------------------------------------------------------------------

  ghost function LookupLocal(path: seq<string>, context: seq<Entries>): Option<Expression> {
    if context == [] then None
    else
      var inner := Resolve(path, context[|context| - 1]);
      if inner.Some? then inner else LookupLocal(path, context[..|context| - 1])
  }

  ghost function LookupGlobal(path: seq<string>, env: Env): Option<Expression> {
    if Resolve(path, env.variables).Some? then Resolve(path, env.variables) else Resolve(path, env.constants)
  }

  ghost function Lookup(path: seq<string>, env: Env): Option<Expression> {
    var local := LookupLocal(path, env.context);
    if local.Some? then local else LookupGlobal(path, env)
  }

  /** Scope i resolves the whole path and no scope further in does. */
  ghost predicate IsInnermost(path: seq<string>, context: seq<Entries>, i: int) {
    && 0 <= i < |context|
    && Resolve(path, context[i]).Some?
    && forall j :: i < j < |context| ==> Resolve(path, context[j]).None?
  }

  /** Local lookup finds the innermost scope that resolves the whole path, and nothing only when none does. */
  lemma {:induction false} LookupLocalIsInnermost(path: seq<string>, context: seq<Entries>)
    ensures forall i :: IsInnermost(path, context, i) ==> LookupLocal(path, context) == Resolve(path, context[i])
    ensures LookupLocal(path, context).Some? <==> exists i :: IsInnermost(path, context, i)
  {
    if context != [] {
      var n := |context| - 1;
      var outer := context[..n];
      LookupLocalIsInnermost(path, outer);
      if Resolve(path, context[n]).Some? {
        assert IsInnermost(path, context, n);
      } else {
        assert forall i :: IsInnermost(path, context, i) <==> IsInnermost(path, outer, i);
      }
    }
  }

  /** If no context resolves the path the variables are asked, and the constants if they do not resolve it either. */
  lemma LookupFallsBack(path: seq<string>, env: Env)
    requires forall i :: 0 <= i < |env.context| ==> Resolve(path, env.context[i]).None?
    ensures Resolve(path, env.variables).Some? ==> Lookup(path, env) == Resolve(path, env.variables)
    ensures Resolve(path, env.variables).None? ==> Lookup(path, env) == Resolve(path, env.constants)
  {
    LookupLocalIsInnermost(path, env.context);
  }

  /** If some context does, neither is asked. */
  lemma LookupInContext(path: seq<string>, env: Env, i: int)
    requires IsInnermost(path, env.context, i)
    ensures Lookup(path, env) == Resolve(path, env.context[i])
  {
    LookupLocalIsInnermost(path, env.context);
  }

  // ----- Expressions -------------------------------------------------------------------------------

  const ATTRIBUTES := ["upfrom", "size", "elements", "contains", "collect"]

  predicate HasSubstring(s: string, sub: string) {
    exists i :: 0 <= i <= |s| && sub <= s[i..]
  }

  /** A token that mentions an attribute anywhere in it. */
  predicate IsAttribute(s: string) {
    exists k :: 0 <= k < |ATTRIBUTES| && HasSubstring(s, ATTRIBUTES[k])
  }

  /** Applying an attribute; None stands for an exception. */
  type Attribution = (Expression, string) -> Option<Expression>

  /** How many tokens come before the first attribute. */
  ghost function NameCount(tokens: seq<string>): (n: nat)
    ensures n <= |tokens|
    ensures forall k :: 0 <= k < n ==> !IsAttribute(tokens[k])
    ensures n < |tokens| ==> IsAttribute(tokens[n])
  {
    if tokens == [] || IsAttribute(tokens[0]) then 0 else 1 + NameCount(tokens[1..])
  }

  ghost function ApplyAll(apply: Attribution, exp: Option<Expression>, attributes: seq<string>): Option<Expression>
    decreases |attributes|
  {
    if exp.None? || attributes == [] then exp
    else ApplyAll(apply, apply(exp.value, attributes[0]), attributes[1..])
  }

  /** The value of an expression: literals stand for themselves, strings name what they evaluate to. */
  ghost function Evaluate(apply: Attribution, exp: Expression, env: Env): Option<Expression> {
    if !exp.ExpString? then Some(exp)
    else
      var tokens := Tokens(exp.str);
      var n := NameCount(tokens);
      ApplyAll(apply, Lookup(tokens[..n], env), tokens[n..])
  }

  predicate IsAttributeWord(word: string) {
    word == "upfrom" || word == "size" || word == "elements" || word == "contains" || word == "collect"
  }

  /** An attribute is a token with one of five words somewhere in it. */
  lemma AttributesAreWords(s: string)
    ensures IsAttribute(s) <==> exists word: string, i :: IsAttributeWord(word) && 0 <= i <= |s| && word <= s[i..]
  {
    forall word: string
      ensures IsAttributeWord(word) <==> word in ATTRIBUTES
    {
      ListedWords(word);
    }
    if IsAttribute(s) {
      var k :| 0 <= k < |ATTRIBUTES| && HasSubstring(s, ATTRIBUTES[k]);
      assert ATTRIBUTES[k] in ATTRIBUTES;
      var i :| 0 <= i <= |s| && ATTRIBUTES[k] <= s[i..];
      assert IsAttributeWord(ATTRIBUTES[k]) && ATTRIBUTES[k] <= s[i..];
    }
    if word: string, i :| IsAttributeWord(word) && 0 <= i <= |s| && word <= s[i..] {
      assert HasSubstring(s, word) && word in ATTRIBUTES;
      var k :| 0 <= k < |ATTRIBUTES| && ATTRIBUTES[k] == word;
    }
  }

  lemma ListedWords(word: string)
    ensures IsAttributeWord(word) <==> word in ATTRIBUTES
  {
    assert ATTRIBUTES[0] == "upfrom" && ATTRIBUTES[1] == "size" && ATTRIBUTES[2] == "elements";
    assert ATTRIBUTES[3] == "contains" && ATTRIBUTES[4] == "collect";
  }

  /** The values attributes lead through, each to the next. */
  ghost predicate IsValueChain(apply: Attribution, attributes: seq<string>, values: seq<Expression>) {
    && |values| == |attributes| + 1
    && forall k :: 0 <= k < |attributes| ==> apply(values[k], attributes[k]) == Some(values[k + 1])
  }

  /** A literal is its own value. */
  lemma LiteralsEvaluateToThemselves(apply: Attribution, exp: Expression, env: Env)
    requires !exp.ExpString?
    ensures Evaluate(apply, exp, env) == Some(exp)
  {
  }

  /**
   The value of a string, by how its tokens divide into the names before the first attribute and the rest:
   the end of a chain of values that begins with what the names name; none if there is no such chain.
   */
  lemma StringsEvaluateByChain(apply: Attribution, exp: Expression, env: Env, names: seq<string>,
                               attributes: seq<string>, v: Expression)
    requires exp.ExpString? && Tokens(exp.str) == names + attributes
    requires (forall name :: name in names ==> !IsAttribute(name)) && (attributes != [] ==> IsAttribute(attributes[0]))
    ensures Evaluate(apply, exp, env) == Some(v) <==>
              exists values ::
                && IsValueChain(apply, attributes, values)
                && Lookup(names, env) == Some(values[0]) && v == values[|attributes|]
  {
    var tokens, n := names + attributes, |names|;
    FirstAttribute(names, attributes);
    assert tokens[..n] == names && tokens[n..] == attributes;
    var start := Lookup(names, env);
    if start.Some? {
      ApplyAllIsChain(apply, start.value, attributes, v);
    }
  }

  lemma {:induction false} FirstAttribute(names: seq<string>, attributes: seq<string>)
    requires (forall name :: name in names ==> !IsAttribute(name)) && (attributes != [] ==> IsAttribute(attributes[0]))
    ensures NameCount(names + attributes) == |names|
  {
    if names == [] {
      assert names + attributes == attributes;
    } else {
      assert (names + attributes)[1..] == names[1..] + attributes;
      FirstAttribute(names[1..], attributes);
    }
  }

  lemma {:induction false} ApplyAllIsChain(apply: Attribution, start: Expression, attributes: seq<string>,
                                           v: Expression)
    ensures ApplyAll(apply, Some(start), attributes) == Some(v) <==>
              exists values ::
                IsValueChain(apply, attributes, values) && values[0] == start && v == values[|attributes|]
    decreases |attributes|
  {
    if attributes == [] {
      assert IsValueChain(apply, attributes, [start]);
    } else {
      var next, rest := apply(start, attributes[0]), attributes[1..];
      assert forall values :: IsValueChain(apply, attributes, values) && values[0] == start ==> next == Some(values[1]);
      if next.Some? {
        ApplyAllIsChain(apply, next.value, rest, v);
        if values :| IsValueChain(apply, rest, values) && values[0] == next.value && v == values[|rest|] {
          assert IsValueChain(apply, attributes, [start] + values);
        }
        if values :| IsValueChain(apply, attributes, values) && values[0] == start && v == values[|attributes|] {
          assert IsValueChain(apply, rest, values[1..]);
        }
      }
    }
  }

  // ----- Rules -------------------------------------------------------------------------------------

  /** A rule and the pointers it owns; Null is the null pointer that ends a chain. */
  datatype Rule =
    | Null
    | ForEach(elemList: seq<Expression>, elem: Expression, nested: Rule, next: Rule)
    | Add(to: Expression, value: Expression, nested: Rule, next: Rule)

  /** Only loops bind variables, and they need a scope to bind them in. */
  predicate HasLoop(chain: Rule) {
    match chain
    case Null => false
    case Add(_, _, _, next) => HasLoop(next)
    case ForEach(_, _, _, _) => true
  }

  predicate Scoped(chain: Rule, depth: nat) {
    HasLoop(chain) ==> depth > 0
  }

  /** Where an execution ends: normally, or in the state an exception left behind. */
  datatype Outcome = Done(env: Env) | Thrown(env: Env)

  /** The loop variable is bound in, and erased from, the innermost scope. */
  ghost function Bind(env: Env, name: string, v: Expression): Env
    requires env.context != []
  {
    var n := |env.context| - 1;
    env.(context := env.context[n := env.context[n][name := v]])
  }

  ghost function Unbind(env: Env, name: string): Env
    requires env.context != []
  {
    var n := |env.context| - 1;
    env.(context := env.context[n := env.context[n] - {name}])
  }

  /** Binding changes what paths that begin with the name resolve to in the innermost scope, and nothing else. */
  lemma BindScope(env: Env, name: string, v: Expression, path: seq<string>)
    requires env.context != []
    ensures var n, after := |env.context| - 1, Bind(env, name, v);
            && after.constants == env.constants && after.variables == env.variables
            && |after.context| == n + 1 && after.context[..n] == env.context[..n]
            && Resolve([name], after.context[n]) == Some(v)
            && (path != [] && path[0] != name ==> Resolve(path, after.context[n]) == Resolve(path, env.context[n]))
  {
  }

  /** So does unbinding, after which they resolve to nothing there. */
  lemma UnbindScope(env: Env, name: string, path: seq<string>)
    requires env.context != [] && path != []
    ensures var n, after := |env.context| - 1, Unbind(env, name);
            && after.constants == env.constants && after.variables == env.variables
            && |after.context| == n + 1 && after.context[..n] == env.context[..n]
            && Resolve(path, after.context[n]) == if path[0] == name then None else Resolve(path, env.context[n])
  {
  }

  ghost function AddOne(apply: Attribution, add: Rule, env: Env): Outcome
    requires add.Add?
  {
    if !add.to.ExpString? then Thrown(env)
    else
      var path := Tokens(add.to.str);
      var to := Resolve(path, env.variables);
      if to.None? || !to.value.ExpInt? then Thrown(env)
      else
        var value := Evaluate(apply, add.value, env);
        if value.None? || !value.value.ExpInt? then Thrown(env)
        else Done(env.(variables := Overwrite(path, ExpInt(to.value.i + value.value.i), env.variables)))
  }

  /** Runs a chain of rules: each to its end, then the next. */
  ghost function Exec(apply: Attribution, chain: Rule, env: Env): (o: Outcome)
    requires Scoped(chain, |env.context|)
    ensures |o.env.context| == |env.context|
    decreases chain, 1, 0
  {
    match chain
    case Null => Done(env)
    case Add(_, _, _, next) =>
      var o := AddOne(apply, chain, env);
      if o.Thrown? then o else Exec(apply, next, o.env)
    case ForEach(_, _, _, next) =>
      var o := Iterate(apply, chain, 0, env);
      if o.Thrown? then o else Exec(apply, next, o.env)
  }

  /** The rounds of a ForEach from element i on, and the removal of its variable after the last. */
  ghost function Iterate(apply: Attribution, each: Rule, i: nat, env: Env): (o: Outcome)
    requires each.ForEach? && i <= |each.elemList| && env.context != []
    ensures |o.env.context| == |env.context|
    decreases each, 0, |each.elemList| - i
  {
    if !each.elem.ExpString? then Thrown(env)
    else if i == |each.elemList| then Done(Unbind(env, each.elem.str))
    else
      var o := Exec(apply, each.nested, Bind(env, each.elem.str, each.elemList[i]));
      if o.Thrown? then o else Iterate(apply, each, i + 1, o.env)
  }

  // ----- What the semantics says -------------------------------------------------------------------

  /** One environment per round: the nested chain takes each to the next with the variable bound. */
  ghost predicate AreRounds(apply: Attribution, each: Rule, i: nat, envs: seq<Env>)
    requires each.ForEach? && each.elem.ExpString? && i <= |each.elemList|
  {
    && |envs| == |each.elemList| - i + 1
    && (forall k :: 0 <= k < |envs| ==> envs[k].context != [])
    && forall k :: 0 < k < |envs| ==>
         Exec(apply, each.nested, Bind(envs[k - 1], each.elem.str, each.elemList[i + k - 1])) == Done(envs[k])
  }

  /**
   A ForEach that does not throw runs its nested chain once per element, in order, with the variable
   bound to that element, and leaves the variable unbound.
   */
  lemma {:induction false} ForEachRunsOncePerElement(apply: Attribution, each: Rule, i: nat, env: Env)
      returns (envs: seq<Env>)
    requires each.ForEach? && i <= |each.elemList| && env.context != []
    requires Iterate(apply, each, i, env).Done?
    ensures each.elem.ExpString? && AreRounds(apply, each, i, envs) && envs[0] == env
    ensures Iterate(apply, each, i, env).env == Unbind(envs[|envs| - 1], each.elem.str)
    decreases |each.elemList| - i
  {
    if i == |each.elemList| {
      envs := [env];
    } else {
      var o := Exec(apply, each.nested, Bind(env, each.elem.str, each.elemList[i]));
      var rest := ForEachRunsOncePerElement(apply, each, i + 1, o.env);
      envs := [env] + rest;
      forall k | 0 < k < |envs|
        ensures Exec(apply, each.nested, Bind(envs[k - 1], each.elem.str, each.elemList[i + k - 1])) == Done(envs[k])
      {
        if k > 1 {
          assert envs[k] == rest[k - 1] && envs[k - 1] == rest[k - 2];
          assert each.elemList[i + 1 + (k - 1) - 1] == each.elemList[i + k - 1];
        }
      }
    }
  }

  ghost function Sum(list: seq<Expression>): int
    requires forall k :: 0 <= k < |list| ==> list[k].ExpInt?
  {
    if list == [] then 0 else list[0].i + Sum(list[1..])
  }

  /** A loop that adds its variable to a total: what one pass over the stack must amount to. */
  ghost predicate IsSumLoop(loop: Rule, total: seq<string>) {
    && loop.ForEach? && loop.elem.ExpString?
    && Tokens(loop.elem.str) == [loop.elem.str] && !IsAttribute(loop.elem.str)
    && (forall k :: 0 <= k < |loop.elemList| ==> loop.elemList[k].ExpInt?)
    && loop.nested.Add? && loop.nested.next == Null
    && loop.nested.to.ExpString? && Tokens(loop.nested.to.str) == total
    && loop.nested.value == loop.elem
  }

  lemma SumLoopShape(loop: Rule, total: seq<string>)
    requires IsSumLoop(loop, total)
    ensures loop.ForEach? && loop.elem.ExpString? && forall k :: 0 <= k < |loop.elemList| ==> loop.elemList[k].ExpInt?
  {
  }

  /** A plain name evaluates to what it names. */
  lemma NameEvaluates(apply: Attribution, env: Env, name: string)
    requires Tokens(name) == [name] && !IsAttribute(name)
    ensures Evaluate(apply, ExpString(name), env) == Lookup([name], env)
  {
    var tokens := Tokens(name);
    assert tokens[1..] == [] && NameCount(tokens[1..]) == 0;
    assert tokens[..1] == [name];
  }

  lemma LoopVariableEvaluates(apply: Attribution, env: Env, name: string, v: Expression)
    requires env.context != [] && Tokens(name) == [name] && !IsAttribute(name)
    ensures Evaluate(apply, ExpString(name), Bind(env, name, v)) == Some(v)
  {
    NameEvaluates(apply, Bind(env, name, v), name);
    hide Evaluate, Tokens, IsAttribute;
    assert Resolve([name], Bind(env, name, v).context[|env.context| - 1]) == Some(v);
  }

  lemma BindThenUnbind(env: Env, name: string, v: Expression)
    requires env.context != []
    ensures Unbind(Bind(env, name, v), name) == Unbind(env, name)
  {
    var n := |env.context| - 1;
    var inner := env.context[n] - {name};
    assert env.context[n][name := v] - {name} == inner;
    assert env.context[n := env.context[n][name := v]][n := inner] == env.context[n := inner];
  }

  /** A path of the variables that names a number. */
  ghost predicate IsTotal(total: seq<string>, variables: Entries) {
    Resolve(total, variables).Some? && Resolve(total, variables).value.ExpInt?
  }

  /** The variables after v has been added to the total. */
  ghost function Plus(total: seq<string>, v: int, variables: Entries): Entries
    requires IsTotal(total, variables)
  {
    Overwrite(total, ExpInt(Resolve(total, variables).value.i + v), variables)
  }

  lemma PlusPlus(total: seq<string>, v: int, w: int, variables: Entries)
    requires IsTotal(total, variables)
    ensures var after := Plus(total, v, variables);
            && IsTotal(total, after)
            && Plus(total, w, after) == Plus(total, v + w, variables)
    ensures Plus(total, 0, variables) == variables
  {
    var was := Resolve(total, variables).value.i;
    StoreThenGet(total, ExpInt(was + v), variables);
    StoreTwice(total, ExpInt(was + v), ExpInt(was + v + w), variables);
    StoreReadBack(total, variables);
  }

  /** The rule of such a loop adds the value the variable is bound to. */
  lemma AddsVariable(apply: Attribution, loop: Rule, total: seq<string>, v: Expression, env: Env)
    requires IsSumLoop(loop, total) && env.context != [] && v.ExpInt?
    requires IsTotal(total, env.variables)
    ensures var bound := Bind(env, loop.elem.str, v);
            AddOne(apply, loop.nested, bound) == Done(bound.(variables := Plus(total, v.i, env.variables)))
  {
    hide Tokens, Resolve, Overwrite, Lookup, IsAttribute;
    LoopVariableEvaluates(apply, env, loop.elem.str, v);
  }

  lemma SumRound(apply: Attribution, loop: Rule, total: seq<string>, i: nat, env: Env)
    requires IsSumLoop(loop, total) && env.context != [] && i < |loop.elemList|
    requires IsTotal(total, env.variables)
    ensures var bound := Bind(env, loop.elem.str, loop.elemList[i]);
            Exec(apply, loop.nested, bound) == Done(bound.(variables := Plus(total, loop.elemList[i].i, env.variables)))
  {
    hide Tokens, Resolve, Overwrite, Evaluate, AddOne, IsAttribute;
    AddsVariable(apply, loop, total, loop.elemList[i], env);
  }

  /** Such a loop adds the sum of the list to the total and changes nothing else. */
  lemma {:induction false} SumLoopAddsTheSum(apply: Attribution, loop: Rule, total: seq<string>, i: nat, env: Env)
    requires IsSumLoop(loop, total) && env.context != [] && i <= |loop.elemList|
    requires IsTotal(total, env.variables)
    ensures Iterate(apply, loop, i, env) ==
            Done(Unbind(env, loop.elem.str).(variables := Plus(total, Sum(loop.elemList[i..]), env.variables)))
    decreases |loop.elemList| - i
  {
    if i == |loop.elemList| {
      PlusPlus(total, 0, 0, env.variables);
    } else {
      hide Resolve, Overwrite, Plus, Evaluate, Lookup, AddOne, Bind, Unbind, Exec, IsSumLoop, Tokens;
      SumLoopShape(loop, total);
      var name, v := loop.elem.str, loop.elemList[i];
      var after := Plus(total, v.i, env.variables);
      PlusPlus(total, v.i, Sum(loop.elemList[i + 1..]), env.variables);
      SumRound(apply, loop, total, i, env);
      BindKeepsRest(env, name, v, after);
      SumLoopAddsTheSum(apply, loop, total, i + 1, Bind(env, name, v).(variables := after));
      assert loop.elemList[i..][1..] == loop.elemList[i + 1..];
    }
  }

  lemma BindKeepsRest(env: Env, name: string, v: Expression, after: Entries)
    requires env.context != []
    ensures Bind(env, name, v).context != [] && Bind(env, name, v).variables == env.variables
    ensures Unbind(Bind(env, name, v).(variables := after), name) == Unbind(env, name).(variables := after)
  {
    BindThenUnbind(env, name, v);
  }
}
