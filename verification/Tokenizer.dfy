/**
 The dot-notation tokenizer of the rule interpreter
 (module/game_manager/src/DSLInterpreter.cpp:13-47): dots separate names, except inside parentheses.
 */
module Tokenizer {

  // ----- Parentheses and cuts ----------------------------------------------------------------------

  ghost function ParenValue(c: char): int {
    if c == '(' then 1 else if c == ')' then -1 else 0
  }

  /** Opening minus closing parentheses. */
  ghost function Net(s: string): int {
    if s == "" then 0 else ParenValue(s[0]) + Net(s[1..])
  }

  lemma {:induction false} NetConcat(a: string, b: string)
    ensures Net(a + b) == Net(a) + Net(b)
  {
    if a == "" {
      assert a + b == b;
    } else {
      assert (a + b)[1..] == a[1..] + b;
      NetConcat(a[1..], b);
    }
  }

  lemma {:induction false} NetCounts(s: string)
    ensures Net(s) + multiset(s)[')'] == multiset(s)['(']
  {
    if s != "" {
      assert s == [s[0]] + s[1..];
      NetCounts(s[1..]);
    }
  }

  /** A dot at which the text before it has as many closing as opening parentheses. */
  ghost predicate IsCut(s: string, k: int) {
    0 <= k < |s| && s[k] == '.' && Net(s[..k]) == 0
  }

  ghost predicate NoCut(s: string) {
    forall k :: 0 <= k < |s| ==> !IsCut(s, k)
  }

  ghost predicate EndsWithDot(s: string) {
    s != "" && s[|s| - 1] == '.'
  }

  /** The first cut, or the length when there is none. */
  ghost function FirstCut(s: string, from: nat := 0): (k: nat)
    requires from <= |s|
    ensures from <= k <= |s|
    ensures k < |s| ==> IsCut(s, k)
    ensures forall j :: from <= j < k ==> !IsCut(s, j)
    decreases |s| - from
  {
    if from == |s| || IsCut(s, from) then from else FirstCut(s, from + 1)
  }

  // ----- What the tokenizer returns ----------------------------------------------------------------

  /**
   The text up to each cut is a token.  Text left after the last cut is a token unless empty; if its
   parentheses do not balance the reader has appended the dot it expected next.
   */
  ghost function Tokens(s: string): seq<string>
    decreases |s|
  {
    var k := FirstCut(s);
    if k < |s| then [s[..k]] + Tokens(s[k + 1..])
    else if s == "" then []
    else if Net(s) == 0 || EndsWithDot(s) then [s]
    else [s + "."]
  }

  ghost function Join(names: seq<string>): string {
    if |names| == 0 then "" else if |names| == 1 then names[0] else names[0] + "." + Join(names[1..])
  }

  /** Text in which a name could stand alone: balanced, and cut nowhere. */
  ghost predicate IsName(s: string) {
    Net(s) == 0 && NoCut(s)
  }

  lemma PrefixCuts(a: string, b: string, k: int)
    requires 0 <= k < |a|
    ensures IsCut(a + b, k) <==> IsCut(a, k)
  {
    assert (a + b)[..k] == a[..k];
  }

  lemma SuffixCuts(a: string, b: string, k: int)
    requires 0 <= k < |b| && Net(a) == 0
    ensures IsCut(a + b, |a| + k) <==> IsCut(b, k)
  {
    assert (a + b)[..|a| + k] == a + b[..k];
    NetConcat(a, b[..k]);
  }

  /** A name followed by a dot is the first token. */
  lemma NameThenDot(head: string, tail: string)
    requires IsName(head)
    ensures var s := head + "." + tail;
            Net(s) == Net(tail) && FirstCut(s) == |head| && Tokens(s) == [head] + Tokens(tail)
  {
    var s := head + "." + tail;
    NetConcat(head + ".", tail);
    NetConcat(head, ".");
    assert s == head + ("." + tail) && s[..|head|] == head && s[|head| + 1..] == tail;
    forall k | 0 <= k < |head|
      ensures !IsCut(s, k)
    {
      PrefixCuts(head, "." + tail, k);
    }
    assert IsCut(s, |head|);
  }

  /** Text with a cut is a name, a dot and the rest. */
  lemma SplitAtFirstCut(s: string) returns (head: string, tail: string)
    requires !NoCut(s)
    ensures s == head + "." + tail && IsName(head)
  {
    var k := FirstCut(s);
    head, tail := s[..k], s[k + 1..];
    assert s[k] == '.' && [s[k]] == ".";
    assert s == head + [s[k]] + tail;
    forall j | 0 <= j < k
      ensures !IsCut(head, j)
    {
      PrefixCuts(head, s[k..], j);
      assert head + s[k..] == s;
    }
  }

  lemma TokensWithoutCut(s: string)
    requires NoCut(s)
    ensures Tokens(s) == if s == "" then [] else if Net(s) == 0 || EndsWithDot(s) then [s] else [s + "."]
  {
  }

  // ----- The reader --------------------------------------------------------------------------------

  method CountUnclosedParenthesis(str: string) returns (count: int)
    ensures count == Net(str) && count + multiset(str)[')'] == multiset(str)['(']
  {
    NetCounts(str);
    count := 0;
    for i := 0 to |str|
      invariant count == Net(str[..i])
    {
      assert str[..i + 1] == str[..i] + [str[i]];
      NetConcat(str[..i], [str[i]]);
      var c := str[i];
      if c == '(' { count := count + 1; }
      if c == ')' { count := count - 1; }
    }
    assert str[..|str|] == str;
  }

  /** std::getline with delimiter '.', from pos: the text read and where reading goes on. */
  method GetLine(str: string, pos: nat) returns (buffer: string, next: nat)
    requires pos < |str|
    ensures pos < next <= |str| && '.' !in buffer
    ensures str[pos..] == buffer + "." + str[next..] || (str[pos..] == buffer && next == |str|)
  {
    var k := pos;
    while k < |str| && str[k] != '.'
      invariant pos <= k <= |str| && '.' !in str[pos..k]
    {
      k := k + 1;
    }
    buffer := str[pos..k];
    next := if k < |str| then k + 1 else k;
  }

  /** Pending text without a cut followed by a line without dots has no cut. */
  lemma LineHasNoCut(temp: string, buffer: string)
    requires NoCut(temp) && '.' !in buffer
    ensures NoCut(temp + buffer)
    ensures Net(temp + buffer) != 0 ==> NoCut(temp + buffer + ".") && Net(temp + buffer + ".") != 0
  {
    var line := temp + buffer;
    forall k | 0 <= k < |line|
      ensures !IsCut(line, k) && !IsCut(line + ".", k)
    {
      PrefixCuts(line, ".", k);
      if k < |temp| {
        PrefixCuts(temp, buffer, k);
      } else {
        assert line[k] == buffer[k - |temp|];
      }
    }
    NetConcat(line, ".");
    assert (line + ".")[..|line|] == line;
  }

  /** What one line read after the pending text `temp` contributes to the tokens. */
  lemma LineStep(temp: string, rest: string, buffer: string, tail: string)
    requires NoCut(temp) && '.' !in buffer
    requires rest == buffer + "." + tail || (rest == buffer != "" && tail == "")
    ensures Net(temp + buffer) == 0 ==> Tokens(temp + rest) == [temp + buffer] + Tokens("" + tail)
    ensures Net(temp + buffer) != 0 ==> Tokens(temp + rest) == Tokens(temp + buffer + "." + tail)
    ensures Net(temp + buffer) != 0 ==> NoCut(temp + buffer + ".") && Net(temp + buffer + ".") != 0
  {
    hide Tokens, NoCut, Net;
    var line := temp + buffer;
    LineHasNoCut(temp, buffer);
    assert "" + tail == tail;
    if rest == buffer {
      assert line + "." + tail == line + ".";
      TokensWithoutCut(line);
      TokensWithoutCut("");
      if Net(line) != 0 {
        TokensWithoutCut(line + ".");
      }
    } else {
      assert temp + rest == line + "." + tail;
      if Net(line) == 0 {
        NameThenDot(line, tail);
      }
    }
  }

  method TokenizeDotNotation(str: string) returns (names: seq<string>)
    ensures names == Tokens(str)
  {
    hide Tokens, NoCut;
    names := [];
    var pos := 0;
    var temp := "";
    var unclosedParCount := 0;
    NothingRead(str);
    while pos < |str|
      invariant 0 <= pos <= |str|
      invariant NoCut(temp) && unclosedParCount == Net(temp)
      invariant temp != "" ==> Net(temp) != 0 && EndsWithDot(temp)
      invariant names + Tokens(temp + str[pos..]) == Tokens(str)
    {
      var buffer, next := GetLine(str, pos);
      NetConcat(temp, buffer);
      NetConcat(temp + buffer, ".");
      LineStep(temp, str[pos..], buffer, str[next..]);
      var inBuffer := CountUnclosedParenthesis(buffer);
      unclosedParCount := unclosedParCount + inBuffer;
      if unclosedParCount == 0 {
        names := names + [temp + buffer];
        temp := "";
      } else {
        temp := temp + buffer + ".";
      }
      pos := next;
    }
    AllRead(temp, str[pos..]);
    if temp != "" {
      names := names + [temp];
    }
  }

  lemma NothingRead(str: string)
    ensures NoCut("") && Tokens("" + str[0..]) == Tokens(str)
  {
    assert "" + str[0..] == str;
  }

  lemma AllRead(temp: string, rest: string)
    requires rest == "" && NoCut(temp)
    requires temp != "" ==> Net(temp) != 0 && EndsWithDot(temp)
    ensures Tokens(temp + rest) == if temp == "" then [] else [temp]
  {
    assert temp + rest == temp;
  }

  // ----- What the tokens are worth -----------------------------------------------------------------

  lemma JoinCons(name: string, names: seq<string>)
    ensures Join([name] + names) == if names == [] then name else name + "." + Join(names)
  {
  }

  lemma FinalDot(s: string)
    requires NoCut(s)
    ensures Net(s) == 0 ==> !EndsWithDot(s)
  {
    if EndsWithDot(s) {
      assert s == s[..|s| - 1] + ".";
      NetConcat(s[..|s| - 1], ".");
      assert !IsCut(s, |s| - 1);
    }
  }

  /**
   Joining the tokens with dots gives the text back, but for one dot at the end: balanced text loses one
   there, and unbalanced text without one gains it.
   */
  lemma {:induction false} JoinTokens(s: string)
    ensures Join(Tokens(s)) ==
              if Net(s) == 0 && EndsWithDot(s) then s[..|s| - 1]
              else if Net(s) != 0 && !EndsWithDot(s) then s + "."
              else s
    ensures Tokens(s) == [] <==> s == ""
    decreases |s|
  {
    hide Tokens, NoCut;
    if NoCut(s) {
      TokensWithoutCut(s);
      FinalDot(s);
    } else {
      var head, tail := SplitAtFirstCut(s);
      NameThenDot(head, tail);
      JoinCons(head, Tokens(tail));
      JoinTokens(tail);
      assert EndsWithDot(s) <==> tail == "" || EndsWithDot(tail);
      if tail == "" {
        assert s[..|s| - 1] == head;
      } else {
        assert s[..|s| - 1] == head + "." + tail[..|tail| - 1];
        assert s + "." == head + "." + (tail + ".");
      }
    }
  }

  /** So the text comes back exactly when it is empty, balanced without a final dot, or unbalanced with one. */
  lemma JoinTokensIff(s: string)
    ensures Join(Tokens(s)) == s <==> (s == "" || (Net(s) == 0 <==> !EndsWithDot(s)))
  {
    JoinTokens(s);
  }

  /** Where the dot between names i and i+1 stands in the join. */
  ghost function Separator(names: seq<string>, i: nat): int
    requires i < |names|
  {
    if i == 0 then |names[0]| else |names[0]| + 1 + Separator(names[1..], i - 1)
  }

  ghost predicate IsSeparator(names: seq<string>, k: int) {
    exists i: nat :: i < |names| - 1 && Separator(names, i) == k
  }

  lemma SeparatorCons(name: string, names: seq<string>, k: int)
    requires names != []
    ensures IsSeparator([name] + names, k) <==> k == |name| || IsSeparator(names, k - |name| - 1)
  {
    var all := [name] + names;
    assert all[1..] == names;
    if IsSeparator(names, k - |name| - 1) {
      var i: nat :| i < |names| - 1 && Separator(names, i) == k - |name| - 1;
      assert Separator(all, i + 1) == k;
    }
    if k == |name| {
      assert Separator(all, 0) == k;
    }
    if IsSeparator(all, k) && k != |name| {
      var i: nat :| i < |all| - 1 && Separator(all, i) == k;
      assert Separator(names, i - 1) == k - |name| - 1;
    }
  }

  /** Text is separated into tokens at its cuts, all of them but one at the very end. */
  lemma {:induction false} SeparatorsAreCuts(s: string, k: int)
    ensures IsSeparator(Tokens(s), k) <==> IsCut(s, k) && k < |s| - 1
    decreases |s|
  {
    hide Tokens, Net, IsSeparator;
    if NoCut(s) {
      TokensWithoutCut(s);
      NoSeparator(s, k);
      NoSeparator(s + ".", k);
      NoSeparatorInNothing(k);
    } else {
      var head, tail := SplitAtFirstCut(s);
      NameThenDot(head, tail);
      JoinTokens(tail);
      SeparatorsAreCuts(tail, k - |head| - 1);
      NetConcat(head, ".");
      NetOfDot();
      assert s == head + ("." + tail);
      if tail == "" {
        assert Tokens(s) == [head];
        NoSeparator(head, k);
      } else {
        SeparatorCons(head, Tokens(tail), k);
        SeparatorNonNegative(Tokens(tail), k - |head| - 1);
      }
      if 0 <= k < |head| {
        PrefixCuts(head, "." + tail, k);
      } else if k == |head| {
        assert s[..k] == head;
      } else if |head| < k < |s| {
        SuffixCuts(head + ".", tail, k - |head| - 1);
      }
    }
  }

  lemma NoSeparatorInNothing(k: int)
    ensures !IsSeparator([], k)
  {
  }

  lemma NetOfDot()
    ensures Net(".") == 0
  {
  }

  lemma NoSeparator(s: string, k: int)
    ensures !IsSeparator([s], k)
  {
  }

  lemma {:induction false} SeparatorNonNegative(names: seq<string>, k: int)
    ensures IsSeparator(names, k) ==> k >= 0
  {
    if names != [] {
      assert [names[0]] + names[1..] == names;
      if names[1..] != [] {
        SeparatorCons(names[0], names[1..], k);
        SeparatorNonNegative(names[1..], k - |names[0]| - 1);
      }
    }
  }

  /** Tokenizing a join of names returns the names, unless the last is empty. */
  lemma {:induction false} TokensOfJoin(names: seq<string>)
    requires forall i :: 0 <= i < |names| ==> IsName(names[i])
    requires names != [] ==> names[|names| - 1] != ""
    ensures Tokens(Join(names)) == names
  {
    if |names| == 1 {
      TokensWithoutCut(names[0]);
    } else if |names| > 1 {
      TokensOfJoin(names[1..]);
      NameThenDot(names[0], Join(names[1..]));
    }
  }
}
