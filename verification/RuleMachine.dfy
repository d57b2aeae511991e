/**
 The rule stack machine: module/game_manager/include/GameInstance.h:42-82 with the two visitors of
 module/game_manager/src/DSLInterpreter.cpp:525-580 and the records of
 module/game_spec/include/GameState.h:17-43.

 `updateState` copies the record on top before visiting the rule and tests the flags of the copy.  The
 comment at DSLInterpreter.cpp:526-529 states the protocol that was meant, for which it would have to
 test those of the record the visitor has written.  Both readings are verified here, each against its
 own recursive semantics.
 */
module RuleStacks {
  import opened RuleSemantics
  import opened CopiedTop

  /** Which record the loop tests after a visit: a copy of the top made before it, or the top itself. */
  datatype Reading = ByCopy | ByReference

  datatype RuleState = RuleState(
    rule: Rule,
    finished: bool,
    needsInput: bool,
    nestedRulesInProgress: bool,
    elemListIndex: nat)

  type RuleStateStack = seq<RuleState>

  function Started(rule: Rule): RuleState
    requires rule != Null
  {
    RuleState(rule, false, false, false, 0)
  }

  /** What std::stack::push(RuleState(rule)) leaves, guarded against the null pointer. */
  function PushRule(stack: RuleStateStack, rule: Rule): RuleStateStack {
    if rule == Null then stack else stack + [Started(rule)]
  }

  /** A record between two visits.  A record that has finished is found on the stack only if it was copied too early. */
  ghost predicate IsResumable(reading: Reading, rs: RuleState) {
    && !rs.needsInput && rs.rule != Null && (rs.finished ==> reading.ByCopy?)
    && (rs.rule.Add? ==> rs.elemListIndex == 0 && !rs.nestedRulesInProgress)
    && (rs.rule.ForEach? ==>
          && rs.elemListIndex <= |rs.rule.elemList|
          && (reading.ByCopy? ==> (rs.nestedRulesInProgress <==> rs.elemListIndex > 0))
          && (rs.finished ==> rs.elemListIndex == |rs.rule.elemList|))
  }

  ghost predicate AllResumable(reading: Reading, stack: RuleStateStack, depth: nat) {
    forall k :: 0 <= k < |stack| ==> IsResumable(reading, stack[k]) && Scoped(stack[k].rule, depth)
  }

  // ----- Meaning of a stack ------------------------------------------------------------------------

  /** What a chain of rules does under either reading. */
  ghost function Run(reading: Reading, apply: Attribution, chain: Rule, env: Env): (o: Outcome)
    requires Scoped(chain, |env.context|)
    ensures |o.env.context| == |env.context|
  {
    if reading.ByCopy? then ExecByCopy(apply, chain, env) else Exec(apply, chain, env)
  }

  /** The rest of a record's rule. */
  ghost function ResumeRule(reading: Reading, apply: Attribution, rs: RuleState, env: Env): (o: Outcome)
    requires IsResumable(reading, rs) && Scoped(rs.rule, |env.context|)
    ensures |o.env.context| == |env.context|
  {
    if rs.rule.Add? then
      var o := AddOne(apply, rs.rule, env);
      if o.Thrown? || rs.finished || reading.ByReference? then o else AddOne(apply, rs.rule, o.env)
    else if reading.ByReference? then Iterate(apply, rs.rule, rs.elemListIndex, env)
    else if !rs.rule.elem.ExpString? then Thrown(env)
    else if rs.finished then Done(Unbind(env, rs.rule.elem.str))
    else if rs.elemListIndex == 0 then LoopByCopy(apply, rs.rule, env)
    else RoundsByCopy(apply, rs.rule, rs.elemListIndex, env)
  }

  /** The rest of a record's rule, then the rules that follow it. */
  ghost function Resume(reading: Reading, apply: Attribution, rs: RuleState, env: Env): (o: Outcome)
    requires IsResumable(reading, rs) && Scoped(rs.rule, |env.context|)
    ensures |o.env.context| == |env.context|
  {
    var o := ResumeRule(reading, apply, rs, env);
    if o.Thrown? then o else Run(reading, apply, rs.rule.next, o.env)
  }

  /** The records of a stack resumed from the top down. */
  ghost function Unwind(reading: Reading, apply: Attribution, stack: RuleStateStack, env: Env): (o: Outcome)
    requires AllResumable(reading, stack, |env.context|)
    ensures |o.env.context| == |env.context|
  {
    if stack == [] then Done(env)
    else
      var o := Resume(reading, apply, stack[|stack| - 1], env);
      if o.Thrown? then o else Unwind(reading, apply, stack[..|stack| - 1], o.env)
  }

  lemma StartedMeansRun(reading: Reading, apply: Attribution, rule: Rule, env: Env)
    requires rule != Null && Scoped(rule, |env.context|)
    ensures IsResumable(reading, Started(rule))
    ensures Resume(reading, apply, Started(rule), env) == Run(reading, apply, rule, env)
  {
    if rule.ForEach? && reading.ByCopy? {
      hide Exec, AddOne;
      assert ResumeRule(reading, apply, Started(rule), env) == LoopByCopy(apply, rule, env);
    }
  }

  lemma StartedVisits(reading: Reading, rule: Rule)
    requires rule != Null
    ensures VisitsLeft(reading, Started(rule)) == Visits(reading, rule)
  {
  }

  lemma UnwindPush(reading: Reading, apply: Attribution, below: RuleStateStack, rule: Rule, env: Env)
    requires AllResumable(reading, below, |env.context|) && Scoped(rule, |env.context|)
    ensures AllResumable(reading, PushRule(below, rule), |env.context|)
    ensures Unwind(reading, apply, PushRule(below, rule), env) ==
            var o := Run(reading, apply, rule, env);
            if o.Thrown? then o else Unwind(reading, apply, below, o.env)
    ensures StackVisits(reading, PushRule(below, rule)) == Visits(reading, rule) + StackVisits(reading, below)
  {
    if rule != Null {
      StartedMeansRun(reading, apply, rule, env);
      StartedVisits(reading, rule);
      hide Resume, ResumeRule, Run, IsResumable, VisitsLeft, Visits, Scoped;
      assert PushRule(below, rule)[..|below|] == below;
    }
  }

  lemma UnwindTop(reading: Reading, apply: Attribution, below: RuleStateStack, top: RuleState, env: Env)
    requires AllResumable(reading, below + [top], |env.context|)
    ensures AllResumable(reading, below, |env.context|) && IsResumable(reading, top) && Scoped(top.rule, |env.context|)
    ensures Unwind(reading, apply, below + [top], env) ==
            var o := Resume(reading, apply, top, env);
            if o.Thrown? then o else Unwind(reading, apply, below, o.env)
    ensures StackVisits(reading, below + [top]) == VisitsLeft(reading, top) + StackVisits(reading, below)
  {
    hide Resume, ResumeRule, Run, IsResumable, VisitsLeft, Scoped;
    var stack := below + [top];
    assert stack[..|stack| - 1] == below && stack[|below|] == top;
    forall k | 0 <= k < |below|
      ensures IsResumable(reading, below[k]) && Scoped(below[k].rule, |env.context|)
    {
      assert stack[k] == below[k];
    }
  }

  /** A fresh stack of one rule means the recursive execution of its chain. */
  lemma UnwindStarted(reading: Reading, apply: Attribution, rule: Rule, env: Env)
    requires Scoped(rule, |env.context|)
    ensures AllResumable(reading, PushRule([], rule), |env.context|)
    ensures Unwind(reading, apply, PushRule([], rule), env) == Run(reading, apply, rule, env)
    ensures StackVisits(reading, PushRule([], rule)) == Visits(reading, rule)
  {
    UnwindPush(reading, apply, [], rule, env);
  }

  // ----- How long a stack takes --------------------------------------------------------------------

  /**
   Visits a chain takes.  As meant: one per Add; for a loop one per element, one to finish, and its nested
   chains.  As coded: two per Add; for a loop one more.
   */
  ghost function Visits(reading: Reading, chain: Rule): nat {
    var once := if reading.ByCopy? then 2 else 1;
    match chain
    case Null => 0
    case Add(_, _, _, next) => once + Visits(reading, next)
    case ForEach(list, _, nested, next) => |list| * (1 + Visits(reading, nested)) + once + Visits(reading, next)
  }

  ghost function VisitsLeft(reading: Reading, rs: RuleState): nat {
    var once := if reading.ByCopy? && !rs.finished then 2 else 1;
    match rs.rule
    case Null => 0
    case Add(_, _, _, next) => once + Visits(reading, next)
    case ForEach(list, _, nested, next) =>
      var left := if rs.elemListIndex < |list| then |list| - rs.elemListIndex else 0;
      var rerun := if reading.ByCopy? && rs.nestedRulesInProgress && !rs.finished then Visits(reading, nested) else 0;
      left * (1 + Visits(reading, nested)) + rerun + once + Visits(reading, next)
  }

  ghost function StackVisits(reading: Reading, stack: RuleStateStack): nat {
    if stack == [] then 0 else VisitsLeft(reading, stack[|stack| - 1]) + StackVisits(reading, stack[..|stack| - 1])
  }

  // ----- One visit ---------------------------------------------------------------------------------

  /** What the visitor makes of the record on top and the state, and whether it throws. */
  ghost predicate IsVisit(apply: Attribution, rs: RuleState, env: Env, rs': RuleState, env': Env, thrown: bool)
    requires rs.rule != Null && (rs.rule.ForEach? ==> env.context != [])
  {
    if rs.rule.Add? then
      var o := AddOne(apply, rs.rule, env);
      thrown == o.Thrown? && env' == o.env && rs' == if thrown then rs else rs.(finished := true)
    else if !rs.rule.elem.ExpString? then
      thrown && env' == env && rs' == rs
    else if rs.elemListIndex >= |rs.rule.elemList| then
      !thrown && env' == Unbind(env, rs.rule.elem.str) && rs' == rs.(finished := true)
    else
      && !thrown
      && env' == Bind(env, rs.rule.elem.str, rs.rule.elemList[rs.elemListIndex])
      && rs' == rs.(nestedRulesInProgress := true, elemListIndex := rs.elemListIndex + 1)
  }

  /** The record whose flags are tested. */
  function Tested(reading: Reading, before: RuleState, after: RuleState): RuleState {
    if reading.ByCopy? then before else after
  }

  /** The stack after a visit that did not throw: the branches of the loop body. */
  function Advance(below: RuleStateStack, tested: RuleState, top: RuleState): RuleStateStack
    requires top.rule != Null
  {
    if tested.finished then PushRule(below, top.rule.next)
    else if tested.nestedRulesInProgress then PushRule(below + [top], top.rule.nested)
    else below + [top]
  }

  /** A record that can be visited, and what a visit that does not throw makes of it and the state. */
  ghost predicate IsGoodVisit(reading: Reading, apply: Attribution, rs: RuleState, env: Env,
                              rs': RuleState, env': Env)
  {
    && IsResumable(reading, rs) && Scoped(rs.rule, |env.context|)
    && IsVisit(apply, rs, env, rs', env', false)
  }

  lemma VisitKeepsRule(reading: Reading, apply: Attribution, rs: RuleState, env: Env, rs': RuleState, env': Env)
    requires IsGoodVisit(reading, apply, rs, env, rs', env')
    ensures rs'.rule == rs.rule && |env'.context| == |env.context|
    ensures Scoped(rs.rule.next, |env.context|) && (rs.rule.ForEach? ==> Scoped(rs.rule.nested, |env.context|))
    ensures Tested(reading, rs, rs').nestedRulesInProgress ==> rs.rule.ForEach?
  {
  }

  /** The visit after which the record is popped: the rule is over, and the next begins. */
  lemma FinishingVisit(reading: Reading, apply: Attribution, rs: RuleState, env: Env, rs': RuleState, env': Env)
    requires IsGoodVisit(reading, apply, rs, env, rs', env') && Tested(reading, rs, rs').finished
    ensures |env'.context| == |env.context| && Scoped(rs.rule.next, |env.context|)
    ensures Resume(reading, apply, rs, env) == Run(reading, apply, rs.rule.next, env')
    ensures VisitsLeft(reading, rs) == 1 + Visits(reading, rs.rule.next)
  {
  }

  /** A visit after which the nested chain runs, and the record is resumed where it is now. */
  lemma NestingVisit(reading: Reading, apply: Attribution, rs: RuleState, env: Env, rs': RuleState, env': Env)
    requires IsGoodVisit(reading, apply, rs, env, rs', env')
    requires !Tested(reading, rs, rs').finished && Tested(reading, rs, rs').nestedRulesInProgress
    ensures |env'.context| == |env.context| && Scoped(rs'.rule, |env.context|) && Scoped(rs.rule.nested, |env.context|)
    ensures rs'.rule == rs.rule && IsResumable(reading, rs')
    ensures Resume(reading, apply, rs, env) ==
            var o := Run(reading, apply, rs.rule.nested, env');
            if o.Thrown? then o else Resume(reading, apply, rs', o.env)
  {
  }

  lemma NestingVisits(reading: Reading, apply: Attribution, rs: RuleState, env: Env, rs': RuleState, env': Env)
    requires IsGoodVisit(reading, apply, rs, env, rs', env')
    requires !Tested(reading, rs, rs').finished && Tested(reading, rs, rs').nestedRulesInProgress
    ensures VisitsLeft(reading, rs) == 1 + Visits(reading, rs.rule.nested) + VisitsLeft(reading, rs')
  {
    OneRoundLess(|rs.rule.elemList|, rs.elemListIndex, 1 + Visits(reading, rs.rule.nested));
  }

  lemma OneRoundLess(n: nat, i: nat, cost: nat)
    ensures i < n ==> (n - i) * cost == (n - (i + 1)) * cost + cost
  {
  }

  /** A visit the loop takes no notice of: it comes around to the record again. */
  lemma UnnoticedVisit(reading: Reading, apply: Attribution, rs: RuleState, env: Env, rs': RuleState, env': Env)
    requires IsGoodVisit(reading, apply, rs, env, rs', env')
    requires !Tested(reading, rs, rs').finished && !Tested(reading, rs, rs').nestedRulesInProgress
    ensures reading.ByCopy? && |env'.context| == |env.context| && Scoped(rs'.rule, |env.context|)
    ensures rs'.rule == rs.rule && IsResumable(reading, rs')
    ensures Resume(reading, apply, rs, env) == Resume(reading, apply, rs', env')
  {
    if rs.rule.ForEach? && rs.elemListIndex == |rs.rule.elemList| {
      UnbindTwice(env, rs.rule.elem.str);
    }
  }

  lemma UnnoticedVisits(reading: Reading, apply: Attribution, rs: RuleState, env: Env, rs': RuleState, env': Env)
    requires IsGoodVisit(reading, apply, rs, env, rs', env')
    requires !Tested(reading, rs, rs').finished && !Tested(reading, rs, rs').nestedRulesInProgress
    ensures VisitsLeft(reading, rs) == 1 + VisitsLeft(reading, rs')
  {
    if rs.rule.ForEach? {
      OneRoundLess(|rs.rule.elemList|, rs.elemListIndex, 1 + Visits(reading, rs.rule.nested));
    }
  }

  /** Two stacks in two states mean the same, and the second takes one visit less. */
  ghost predicate IsOneVisitOn(reading: Reading, apply: Attribution, stack: RuleStateStack, env: Env,
                               stack': RuleStateStack, env': Env)
  {
    && AllResumable(reading, stack, |env.context|) && AllResumable(reading, stack', |env'.context|)
    && |env'.context| == |env.context|
    && Unwind(reading, apply, stack', env') == Unwind(reading, apply, stack, env)
    && StackVisits(reading, stack') == StackVisits(reading, stack) - 1
  }

  lemma ReplaceTop(reading: Reading, below: RuleStateStack, rs: RuleState, rs': RuleState, depth: nat)
    requires AllResumable(reading, below + [rs], depth) && IsResumable(reading, rs') && Scoped(rs'.rule, depth)
    ensures AllResumable(reading, below + [rs'], depth)
  {
    forall k | 0 <= k < |below|
      ensures IsResumable(reading, (below + [rs'])[k]) && Scoped((below + [rs'])[k].rule, depth)
    {
      assert (below + [rs])[k] == below[k];
    }
  }

  /** A visit that does not throw keeps what the stack means and uses up one of the visits it takes. */
  lemma VisitKeepsMeaning(reading: Reading, apply: Attribution, below: RuleStateStack, rs: RuleState, env: Env,
                          rs': RuleState, env': Env)
    requires AllResumable(reading, below + [rs], |env.context|) && IsGoodVisit(reading, apply, rs, env, rs', env')
    ensures rs'.rule == rs.rule && rs.rule != Null
    ensures Tested(reading, rs, rs').nestedRulesInProgress ==> rs.rule.ForEach?
    ensures IsOneVisitOn(reading, apply, below + [rs], env, Advance(below, Tested(reading, rs, rs'), rs'), env')
  {
    UnwindTop(reading, apply, below, rs, env);
    VisitKeepsRule(reading, apply, rs, env, rs', env');
    var tested := Tested(reading, rs, rs');
    if tested.finished {
      FinishingVisit(reading, apply, rs, env, rs', env');
    } else if tested.nestedRulesInProgress {
      NestingVisit(reading, apply, rs, env, rs', env');
      NestingVisits(reading, apply, rs, env, rs', env');
    } else {
      UnnoticedVisit(reading, apply, rs, env, rs', env');
      UnnoticedVisits(reading, apply, rs, env, rs', env');
    }
    hide Resume, Run, VisitsLeft, Visits, Unwind, StackVisits, IsVisit, PushRule, IsResumable, Scoped, Tested;
    if tested.finished {
      UnwindPush(reading, apply, below, rs.rule.next, env');
    } else {
      ReplaceTop(reading, below, rs, rs', |env.context|);
      if tested.nestedRulesInProgress {
        UnwindPush(reading, apply, below + [rs'], rs.rule.nested, env');
        UnwindTop(reading, apply, below, rs', Run(reading, apply, rs.rule.nested, env').env);
      } else {
        UnwindTop(reading, apply, below, rs', env');
      }
    }
  }

  lemma ThrowingVisit(reading: Reading, apply: Attribution, rs: RuleState, env: Env, rs': RuleState, env': Env)
    requires IsResumable(reading, rs) && Scoped(rs.rule, |env.context|) && IsVisit(apply, rs, env, rs', env', true)
    ensures Resume(reading, apply, rs, env) == Thrown(env') && VisitsLeft(reading, rs) > 0
  {
  }

  /** A visit that throws ends the run in the state it leaves. */
  lemma ThrowEndsRun(reading: Reading, apply: Attribution, below: RuleStateStack, rs: RuleState, env: Env,
                     rs': RuleState, env': Env)
    requires AllResumable(reading, below + [rs], |env.context|)
    requires IsResumable(reading, rs) && Scoped(rs.rule, |env.context|) && IsVisit(apply, rs, env, rs', env', true)
    ensures Unwind(reading, apply, below + [rs], env) == Thrown(env')
    ensures StackVisits(reading, below + [rs]) > 0
  {
    hide Resume, VisitsLeft, Unwind, StackVisits, IsVisit, IsResumable;
    UnwindTop(reading, apply, below, rs, env);
    ThrowingVisit(reading, apply, rs, env, rs', env');
  }

  lemma NothingLeft(reading: Reading, apply: Attribution, env: Env)
    ensures Unwind(reading, apply, [], env) == Done(env) && StackVisits(reading, []) == 0
  {
  }
}

module RuleMachines {
  import opened Wrappers
  import opened Expressions
  import opened Tokenizer
  import opened RuleSemantics
  import opened RuleStacks

  class GameInstance {
    var constants: Entries
    var variables: Entries
    var context: seq<Entries>
    var ruleStateStack: RuleStateStack
    const applyAttribute: Attribution

    ghost function State(): Env
      reads this
    {
      Env(constants, variables, context)
    }

    /** Works on the stack of the state it is given. */
    constructor (constants: Entries, variables: Entries, context: seq<Entries>, ruleStateStack: RuleStateStack,
                 applyAttribute: Attribution)
      ensures State() == Env(constants, variables, context) && this.applyAttribute == applyAttribute
      ensures this.ruleStateStack == ruleStateStack
    {
      this.constants, this.variables, this.context := constants, variables, context;
      this.ruleStateStack, this.applyAttribute := ruleStateStack, applyAttribute;
    }

    // ----- Lookup and evaluation -------------------------------------------------------------------

    method LookupLocalScope(indices: seq<string>) returns (res: Option<Expression>)
      ensures res == LookupLocal(indices, context)
    {
      var k := |context|;
      assert context[..k] == context;
      while k > 0
        invariant 0 <= k <= |context|
        invariant LookupLocal(indices, context) == LookupLocal(indices, context[..k])
      {
        k := k - 1;
        assert context[..k + 1][..k] == context[..k];
        res := ExpressionPtr(indices).GetPtr(context[k]);
        if res.Some? {
          return;
        }
      }
      return None;
    }

    method LookupWithIndices(indices: seq<string>) returns (res: Option<Expression>)
      ensures res == Lookup(indices, State())
    {
      res := LookupLocalScope(indices);
      if res.Some? {
        return;
      }
      res := ExpressionPtr(indices).GetPtr(variables);
      if res.Some? {
        return;
      }
      res := ExpressionPtr(indices).GetPtr(constants);
    }

    method EvaluateExpression(exp: Expression) returns (res: Option<Expression>)
      ensures res == Evaluate(applyAttribute, exp, State())
      ensures !exp.ExpString? ==> res == Some(exp)
    {
      hide Tokens, Lookup, IsAttribute;
      if !exp.ExpString? {
        return Some(exp);
      }
      var tokens := TokenizeDotNotation(exp.str);
      var n := 0;
      assert tokens[0..] == tokens;
      while n < |tokens| && !IsAttribute(tokens[n])
        invariant n <= |tokens| && NameCount(tokens) == n + NameCount(tokens[n..])
      {
        assert tokens[n..][1..] == tokens[n + 1..];
        n := n + 1;
      }
      assert NameCount(tokens) == n;
      res := LookupWithIndices(tokens[..n]);
      var k := n;
      while res.Some? && k < |tokens|
        invariant n <= k <= |tokens|
        invariant Evaluate(applyAttribute, exp, State()) == ApplyAll(applyAttribute, res, tokens[k..])
      {
        assert tokens[k..][1..] == tokens[k + 1..];
        res := applyAttribute(res.value, tokens[k]);
        k := k + 1;
      }
    }

    // ----- The visitors ----------------------------------------------------------------------------

    /** std::stack::top() as a reference: replaces the record on top. */
    method SetTop(top: RuleState)
      requires ruleStateStack != []
      modifies this`ruleStateStack
      ensures ruleStateStack == old(ruleStateStack[..|ruleStateStack| - 1]) + [top]
    {
      ruleStateStack := ruleStateStack[..|ruleStateStack| - 1] + [top];
    }

    method VisitForEach(forEach: Rule) returns (thrown: bool)
      requires ruleStateStack != [] && context != []
      requires forEach.ForEach? && Top().rule == forEach
      modifies this
      ensures constants == old(constants)
      ensures |ruleStateStack| == old(|ruleStateStack|) && Below() == old(Below())
      ensures IsVisit(applyAttribute, old(Top()), old(State()), Top(), State(), thrown)
    {
      if !forEach.elem.ExpString? {
        return true;
      }
      var element := forEach.elem.str;
      var ruleState := ruleStateStack[|ruleStateStack| - 1];
      var inner := |context| - 1;
      if ruleState.elemListIndex >= |forEach.elemList| {
        SetTop(ruleState.(finished := true));
        context := context[inner := context[inner] - {element}];
        return false;
      }
      var exp := forEach.elemList[ruleState.elemListIndex];
      context := context[inner := context[inner][element := exp]];
      SetTop(ruleState.(nestedRulesInProgress := true, elemListIndex := ruleState.elemListIndex + 1));
      return false;
    }

    method VisitAdd(add: Rule) returns (thrown: bool)
      requires ruleStateStack != [] && add.Add? && Top().rule == add
      modifies this
      ensures constants == old(constants)
      ensures |ruleStateStack| == old(|ruleStateStack|) && Below() == old(Below())
      ensures IsVisit(applyAttribute, old(Top()), old(State()), Top(), State(), thrown)
    {
      var ruleState := ruleStateStack[|ruleStateStack| - 1];
      if !add.to.ExpString? {
        return true;
      }
      var toExpTokens := TokenizeDotNotation(add.to.str);
      var to := ExpressionPtr(toExpTokens).GetPtr(variables);
      if to.None? || !to.value.ExpInt? {
        return true;
      }
      var value := EvaluateExpression(add.value);
      if value.None? || !value.value.ExpInt? {
        return true;
      }
      var sum := to.value.i + value.value.i;
      var stored := ExpressionPtr(toExpTokens).Store(ExpInt(sum), variables);
      variables := stored.value;
      SetTop(ruleState.(finished := true));
      return false;
    }

    // ----- The loop --------------------------------------------------------------------------------

    ghost function Top(): RuleState
      requires ruleStateStack != []
      reads this
    {
      ruleStateStack[|ruleStateStack| - 1]
    }

    ghost function Below(): RuleStateStack
      requires ruleStateStack != []
      reads this
    {
      ruleStateStack[..|ruleStateStack| - 1]
    }

    /** The visit of the rule on top. */
    method Accept() returns (thrown: bool)
      requires ruleStateStack != [] && Top().rule != Null && (Top().rule.ForEach? ==> context != [])
      modifies this
      ensures |ruleStateStack| == old(|ruleStateStack|) && Below() == old(Below())
      ensures IsVisit(applyAttribute, old(Top()), old(State()), Top(), State(), thrown)
    {
      var rule := ruleStateStack[|ruleStateStack| - 1].rule;
      if rule.ForEach? {
        thrown := VisitForEach(rule);
      } else {
        thrown := VisitAdd(rule);
      }
    }

    /**
     Runs the stack down, as coded.  The state it ends in is the one execution by copy ends in, and a run
     that does not throw empties the stack after as many visits as the rules take.
     */
    method UpdateState() returns (thrown: bool, visits: nat)
      requires AllResumable(ByCopy, ruleStateStack, |context|)
      modifies this
      ensures var o := Unwind(ByCopy, applyAttribute, old(ruleStateStack), old(State()));
              State() == o.env && thrown == o.Thrown?
      ensures !thrown ==> ruleStateStack == [] && visits == StackVisits(ByCopy, old(ruleStateStack))
      ensures thrown ==> visits < StackVisits(ByCopy, old(ruleStateStack))
    {
      hide Resume, IsVisit, Unwind, StackVisits, IsResumable, Scoped, AllResumable;
      visits := 0;
      while ruleStateStack != []
        invariant AllResumable(ByCopy, ruleStateStack, |context|)
        invariant Unwind(ByCopy, applyAttribute, ruleStateStack, State()) ==
                  old(Unwind(ByCopy, applyAttribute, ruleStateStack, State()))
        invariant visits + StackVisits(ByCopy, ruleStateStack) == StackVisits(ByCopy, old(ruleStateStack))
        decreases StackVisits(ByCopy, ruleStateStack)
      {
        ghost var before, below, env := ruleStateStack, Below(), State();
        var ruleState := ruleStateStack[|ruleStateStack| - 1];
        assert before == below + [ruleState];
        RecordIsRule(ByCopy, before, |context|);
        thrown := Accept();
        assert ruleStateStack == below + [Top()];
        if thrown {
          ThrowEndsRun(ByCopy, applyAttribute, below, ruleState, env, Top(), State());
          return;
        }
        VisitKeepsMeaning(ByCopy, applyAttribute, below, ruleState, env, Top(), State());
        visits := visits + 1;
        if ruleState.finished {
          var nextRule := ruleState.rule.next;
          ruleStateStack := ruleStateStack[..|ruleStateStack| - 1];
          ruleStateStack := PushRule(ruleStateStack, nextRule);
        } else if ruleState.nestedRulesInProgress {
          ruleStateStack := PushRule(ruleStateStack, ruleState.rule.nested);
        } else if ruleState.needsInput {
          return;
        }
      }
      NothingLeft(ByCopy, applyAttribute, State());
      thrown := false;
    }

    /** The same, as meant: the record on top is read by reference, after the visit. */
    method UpdateStateByReference() returns (thrown: bool, visits: nat)
      requires AllResumable(ByReference, ruleStateStack, |context|)
      modifies this
      ensures var o := Unwind(ByReference, applyAttribute, old(ruleStateStack), old(State()));
              State() == o.env && thrown == o.Thrown?
      ensures !thrown ==> ruleStateStack == [] && visits == StackVisits(ByReference, old(ruleStateStack))
      ensures thrown ==> visits < StackVisits(ByReference, old(ruleStateStack))
    {
      hide Resume, IsVisit, Unwind, StackVisits, IsResumable, Scoped, AllResumable;
      visits := 0;
      while ruleStateStack != []
        invariant AllResumable(ByReference, ruleStateStack, |context|)
        invariant Unwind(ByReference, applyAttribute, ruleStateStack, State()) ==
                  old(Unwind(ByReference, applyAttribute, ruleStateStack, State()))
        invariant visits + StackVisits(ByReference, ruleStateStack) == StackVisits(ByReference, old(ruleStateStack))
        decreases StackVisits(ByReference, ruleStateStack)
      {
        ghost var before, below, rs, env := ruleStateStack, Below(), Top(), State();
        assert before == below + [rs];
        RecordIsRule(ByReference, before, |context|);
        thrown := Accept();
        assert ruleStateStack == below + [Top()];
        if thrown {
          ThrowEndsRun(ByReference, applyAttribute, below, rs, env, Top(), State());
          return;
        }
        VisitKeepsMeaning(ByReference, applyAttribute, below, rs, env, Top(), State());
        visits := visits + 1;
        var ruleState := ruleStateStack[|ruleStateStack| - 1];
        if ruleState.finished {
          var nextRule := ruleState.rule.next;
          ruleStateStack := ruleStateStack[..|ruleStateStack| - 1];
          ruleStateStack := PushRule(ruleStateStack, nextRule);
        } else if ruleState.nestedRulesInProgress {
          ruleStateStack := PushRule(ruleStateStack, ruleState.rule.nested);
        } else if ruleState.needsInput {
          return;
        }
      }
      NothingLeft(ByReference, applyAttribute, State());
      thrown := false;
    }
  }

  lemma RecordIsRule(reading: Reading, stack: RuleStateStack, depth: nat)
    requires AllResumable(reading, stack, depth) && stack != []
    ensures var top := stack[|stack| - 1];
            && IsResumable(reading, top) && Scoped(top.rule, depth) && !top.needsInput
            && top.rule != Null && (top.rule.ForEach? ==> depth > 0)
  {
  }
}
