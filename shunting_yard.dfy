/**
 * ShuntingYard.toPostfix: infix tokens to postfix, with an operator stack.
 *
 * The stack is a sequence whose last element is the top (Deque.push/pop/peek
 * work on that end). The precedences are NOT 3, AND 2 and OR 1; any other
 * string, "(" included, looks up as 0.
 */
module ShuntingYard {
  import opened Base

  /** Why toPostfix throws instead of returning. */
  datatype PostfixError =
    | EmptyStackPop   // operatorStack.pop() on an empty stack: a ")" without a matching "("
    | NullPrecedence  // PRECEDENCE.get(token) is null for an operator not written in upper case

  /** The keys of PRECEDENCE. */
  predicate IsPrecedenceKey(t: string)
  {
    t == "NOT" || t == "AND" || t == "OR"
  }

  /** PRECEDENCE.getOrDefault(t, 0). */
  function Precedence(t: string): (p: nat)
    ensures p <= 3 && (p > 0 <==> IsPrecedenceKey(t))
  {
    if t == "NOT" then 3 else if t == "AND" then 2 else if t == "OR" then 1 else 0
  }

  function UpperAscii(c: char): char
  {
    if 'a' <= c <= 'z' then (c as int - 32) as char else c
  }

  /**
   * The string with its ASCII letters in upper case. Unlike Java's
   * toUpperCase it maps no other character, so it keeps the length.
   */
  function Upper(t: string): (u: string)
    ensures |u| == |t|
    ensures forall i :: 0 <= i < |t| ==> u[i] == (if 'a' <= t[i] <= 'z' then (t[i] as int - 32) as char else t[i])
  {
    if |t| == 0 then [] else [UpperAscii(t[0])] + Upper(t[1..])
  }

  /**
   * An operator written in any letter case: PRECEDENCE.containsKey(token.toUpperCase()).
   * Java's toUpperCase also maps non-ASCII characters, some to several
   * characters (ß to SS, ﬅ to ST, ŉ to ʼN), but a string holding a non-ASCII
   * character never upper-cases to exactly NOT, AND or OR, so ASCII
   * upper-casing decides this.
   */
  predicate IsOperatorName(t: string)
  {
    IsPrecedenceKey(Upper(t))
  }

  /** The three names are their own upper case. */
  lemma KeyIsOperatorName(t: string)
    requires IsPrecedenceKey(t)
    ensures Upper(t) == t && IsOperatorName(t)
  {
    UpperFixed(t);
  }

  /** A string without lower-case ASCII letters is its own upper case. */
  lemma {:induction false} UpperFixed(t: string)
    requires forall k :: 0 <= k < |t| ==> !('a' <= t[k] <= 'z')
    ensures Upper(t) == t
    decreases |t|
  {
    if |t| > 0 {
      UpperFixed(t[1..]);
      assert [t[0]] + t[1..] == t;
    }
  }

  /** A token that goes straight to the output: a keyword. */
  predicate IsOperand(t: string)
  {
    t != "(" && t != ")" && !IsOperatorName(t)
  }

  /** The output built so far and the operator stack. */
  datatype Shunt = Shunt(output: seq<string>, stack: seq<string>)

  function Top(stack: seq<string>): string
    requires |stack| > 0
  {
    stack[|stack| - 1]
  }

  function Pop(stack: seq<string>): seq<string>
    requires |stack| > 0
  {
    stack[..|stack| - 1]
  }

  /** The operators of precedence at least p move from the top of the stack to the output. */
  function PopAtLeast(s: Shunt, p: nat): Shunt
    decreases |s.stack|
  {
    if |s.stack| > 0 && Precedence(Top(s.stack)) >= p then
      PopAtLeast(Shunt(s.output + [Top(s.stack)], Pop(s.stack)), p)
    else s
  }

  /** Everything above the topmost "(" moves to the output. */
  function PopToOpen(s: Shunt): Shunt
    decreases |s.stack|
  {
    if |s.stack| > 0 && Top(s.stack) != "(" then
      PopToOpen(Shunt(s.output + [Top(s.stack)], Pop(s.stack)))
    else s
  }

  /**
   * One token of the loop. With unaryPops false, NOT is pushed without
   * popping anything, which is how a right-associative prefix operator is
   * meant to be handled; the code as written has unaryPops true.
   */
  function Step(s: Shunt, t: string, unaryPops: bool): Result<Shunt, PostfixError>
  {
    if t == "(" then Success(Shunt(s.output, s.stack + [t]))
    else if t == ")" then
      var s' := PopToOpen(s);
      if |s'.stack| == 0 then Failure(EmptyStackPop)
      else Success(Shunt(s'.output, Pop(s'.stack)))
    else if IsOperatorName(t) then
      if |s.stack| == 0 then Success(Shunt(s.output, [t]))
      else if !IsPrecedenceKey(t) then Failure(NullPrecedence)
      else if t == "NOT" && !unaryPops then Success(Shunt(s.output, s.stack + [t]))
      else
        var s' := PopAtLeast(s, Precedence(t));
        Success(Shunt(s'.output, s'.stack + [t]))
    else Success(Shunt(s.output + [t], s.stack))
  }

  /** The loop over the tokens from state s, stopping at the first exception. */
  function Run(s: Shunt, ts: seq<string>, unaryPops: bool): Result<Shunt, PostfixError>
    decreases |ts|
  {
    if |ts| == 0 then Success(s)
    else
      match Step(s, ts[0], unaryPops)
      case Failure(e) => Failure(e)
      case Success(s') => Run(s', ts[1..], unaryPops)
  }

  /** After the loop the remaining operators are popped onto the output, top first. */
  function Flushed(s: Shunt): seq<string>
  {
    s.output + Reverse(s.stack)
  }

  /** The run from s over ts followed by the final flush. */
  function Completed(s: Shunt, ts: seq<string>, unaryPops: bool): Result<seq<string>, PostfixError>
  {
    match Run(s, ts, unaryPops)
    case Failure(e) => Failure(e)
    case Success(s') => Success(Flushed(s'))
  }

  /** toPostfix as written. */
  function Postfix(ts: seq<string>): Result<seq<string>, PostfixError>
  {
    Completed(Shunt([], []), ts, true)
  }

  /** toPostfix with NOT handled as a right-associative prefix operator. */
  function PostfixFixed(ts: seq<string>): Result<seq<string>, PostfixError>
  {
    Completed(Shunt([], []), ts, false)
  }

  lemma RunCons(s: Shunt, t: string, rest: seq<string>, unaryPops: bool)
    ensures Completed(s, [t] + rest, unaryPops) ==
      match Step(s, t, unaryPops)
      case Failure(e) => Failure(e)
      case Success(s') => Completed(s', rest, unaryPops)
  {
    assert ([t] + rest)[0] == t && ([t] + rest)[1..] == rest;
  }

  lemma RunAt(s: Shunt, ts: seq<string>, i: nat, unaryPops: bool)
    requires i < |ts|
    ensures Run(s, ts[i..], unaryPops) ==
      match Step(s, ts[i], unaryPops)
      case Failure(e) => Failure(e)
      case Success(s') => Run(s', ts[i + 1..], unaryPops)
  {
    assert ts[i..][0] == ts[i] && ts[i..][1..] == ts[i + 1..];
  }

  /** toPostfix: the loop over the tokens, then the flush of the stack. */
  method ToPostfix(tokens: seq<string>) returns (r: Result<seq<string>, PostfixError>)
    ensures r == Postfix(tokens)
  {
    var output: seq<string> := [];
    var stack: seq<string> := [];
    for i := 0 to |tokens|
      invariant Run(Shunt(output, stack), tokens[i..], true) == Run(Shunt([], []), tokens, true)
    {
      var token := tokens[i];
      ghost var before := Shunt(output, stack);
      RunAt(before, tokens, i, true);
      if token == "(" {
        stack := stack + [token];
      } else if token == ")" {
        while |stack| > 0 && stack[|stack| - 1] != "("
          invariant PopToOpen(Shunt(output, stack)) == PopToOpen(before)
        {
          output := output + [stack[|stack| - 1]];
          stack := stack[..|stack| - 1];
        }
        if |stack| == 0 {
          assert Step(before, token, true) == Failure(EmptyStackPop);
          return Failure(EmptyStackPop);
        }
        stack := stack[..|stack| - 1];
      } else if IsOperatorName(token) {
        if |stack| > 0 && !IsPrecedenceKey(token) {
          assert Step(before, token, true) == Failure(NullPrecedence);
          return Failure(NullPrecedence);
        }
        assert |stack| == 0 ==> stack + [token] == [token];
        while |stack| > 0 && Precedence(stack[|stack| - 1]) >= Precedence(token)
          invariant PopAtLeast(Shunt(output, stack), Precedence(token)) == PopAtLeast(before, Precedence(token))
        {
          output := output + [stack[|stack| - 1]];
          stack := stack[..|stack| - 1];
        }
        stack := stack + [token];
      } else {
        output := output + [token];
      }
      assert Step(before, token, true) == Success(Shunt(output, stack));
    }
    assert tokens[|tokens|..] == [];
    ghost var flushed := Flushed(Shunt(output, stack));
    assert Postfix(tokens) == Success(flushed);
    while |stack| > 0
      invariant output + Reverse(stack) == flushed
    {
      output := output + [stack[|stack| - 1]];
      stack := stack[..|stack| - 1];
    }
    assert output + Reverse(stack) == output;
    r := Success(output);
  }

  /* The tokens toPostfix keeps, loses and reorders. */

  function Opens(ts: seq<string>): nat
  {
    multiset(ts)["("]
  }

  function Closes(ts: seq<string>): nat
  {
    multiset(ts)[")"]
  }

  /** The keywords of ts, in order. */
  function Operands(ts: seq<string>): seq<string>
  {
    if |ts| == 0 then [] else (if IsOperand(ts[0]) then [ts[0]] else []) + Operands(ts[1..])
  }

  /** The multiset m without its parentheses. */
  function NoParens(m: multiset<string>): multiset<string>
  {
    m["(" := 0][")" := 0]
  }

  /** What may be on the operator stack: "(" and operator names. */
  predicate OnStack(stack: seq<string>)
  {
    forall k :: 0 <= k < |stack| ==> stack[k] == "(" || IsOperatorName(stack[k])
  }

  /** The non-parenthesis tokens held in the output and on the stack. */
  function Census(s: Shunt): multiset<string>
  {
    NoParens(multiset(s.output) + multiset(s.stack))
  }

  /** s' comes from s by moving operators from the stack to the output. */
  predicate Moved(s: Shunt, s': Shunt)
  {
    OnStack(s'.stack) && Census(s') == Census(s) && |s'.output| + |s'.stack| == |s.output| + |s.stack|
    && Opens(s'.output) == Opens(s.output) && Closes(s'.output) == Closes(s.output)
    && Opens(s'.stack) == Opens(s.stack) && Operands(s'.output) == Operands(s.output)
  }

  lemma {:induction false} OperandsAppend(a: seq<string>, b: seq<string>)
    ensures Operands(a + b) == Operands(a) + Operands(b)
    decreases |a|
  {
    if |a| == 0 {
      assert a + b == b;
    } else {
      assert (a + b)[0] == a[0] && (a + b)[1..] == a[1..] + b;
      OperandsAppend(a[1..], b);
    }
  }

  /** Moving one operator from the top of the stack to the output. */
  lemma MoveTop(s: Shunt)
    requires OnStack(s.stack) && |s.stack| > 0 && Top(s.stack) != "("
    ensures Moved(s, Shunt(s.output + [Top(s.stack)], Pop(s.stack)))
  {
    var x := Top(s.stack);
    assert s.stack == Pop(s.stack) + [x];
    assert IsOperatorName(x);
    OperandsAppend(s.output, [x]);
  }

  lemma {:induction false} PopAtLeastMoves(s: Shunt, p: nat)
    requires OnStack(s.stack) && p >= 1
    ensures Moved(s, PopAtLeast(s, p))
    decreases |s.stack|
  {
    if |s.stack| > 0 && Precedence(Top(s.stack)) >= p {
      var s1 := Shunt(s.output + [Top(s.stack)], Pop(s.stack));
      MoveTop(s);
      PopAtLeastMoves(s1, p);
    }
  }

  /** PopToOpen stops at a "(", which is there exactly when the stack holds one. */
  lemma {:induction false} PopToOpenMoves(s: Shunt)
    requires OnStack(s.stack)
    ensures Moved(s, PopToOpen(s))
    ensures |PopToOpen(s).stack| > 0 <==> Opens(s.stack) > 0
    ensures |PopToOpen(s).stack| > 0 ==> Top(PopToOpen(s).stack) == "("
    decreases |s.stack|
  {
    if |s.stack| > 0 && Top(s.stack) != "(" {
      var s1 := Shunt(s.output + [Top(s.stack)], Pop(s.stack));
      MoveTop(s);
      PopToOpenMoves(s1);
    } else if |s.stack| > 0 {
      assert s.stack[|s.stack| - 1] == "(";
    }
  }

  /** What the tokens ts do to the tokens held in the output and on the stack. */
  predicate Advanced(s: Shunt, ts: seq<string>, s': Shunt)
  {
    Kept(s, ts, s') && Counted(s, ts, s')
  }

  /** The non-parenthesis tokens of ts are added, the keywords at the end of the output. */
  predicate Kept(s: Shunt, ts: seq<string>, s': Shunt)
  {
    OnStack(s'.stack) && Census(s') == Census(s) + NoParens(multiset(ts))
    && Operands(s'.output) == Operands(s.output) + Operands(ts)
  }

  /** Each ")" takes a "(" off the stack, and parentheses never reach the output. */
  predicate Counted(s: Shunt, ts: seq<string>, s': Shunt)
  {
    |s'.output| + |s'.stack| + 2 * Closes(ts) == |s.output| + |s.stack| + |ts|
    && Opens(s'.output) == Opens(s.output) && Closes(s'.output) == Closes(s.output)
    && Opens(s'.stack) + Closes(ts) == Opens(s.stack) + Opens(ts)
  }

  /** A successful step advances the state; a ")" succeeds only on a stack holding a "(". */
  lemma StepFacts(s: Shunt, t: string, unaryPops: bool)
    requires OnStack(s.stack) && Step(s, t, unaryPops).Success?
    ensures Advanced(s, [t], Step(s, t, unaryPops).value)
    ensures t == ")" ==> Opens(s.stack) > 0
  {
    var s' := Step(s, t, unaryPops).value;
    if t == "(" {
      PushFacts(s, t);
    } else if t == ")" {
      PopToOpenMoves(s);
      CloseFacts(PopToOpen(s), s);
    } else if IsOperatorName(t) {
      if |s.stack| == 0 || (t == "NOT" && !unaryPops) {
        PushFacts(s, t);
      } else {
        PopAtLeastMoves(s, Precedence(t));
        PushFacts(PopAtLeast(s, Precedence(t)), t);
        AdvancedAfterMove(s, PopAtLeast(s, Precedence(t)), t, s');
      }
    } else {
      OperandFacts(s, t);
    }
  }

  lemma PushFacts(s: Shunt, t: string)
    requires OnStack(s.stack) && (t == "(" || IsOperatorName(t))
    ensures Advanced(s, [t], Shunt(s.output, s.stack + [t]))
  {
    assert Operands([t]) == [];
  }

  lemma CloseFacts(r: Shunt, s: Shunt)
    requires Moved(s, r) && |r.stack| > 0 && Top(r.stack) == "("
    ensures Advanced(s, [")"], Shunt(r.output, Pop(r.stack)))
  {
    assert r.stack == Pop(r.stack) + ["("];
    assert Operands([")"]) == [];
    assert multiset(Pop(r.stack)) + multiset{"("} == multiset(r.stack);
  }

  lemma OperandFacts(s: Shunt, t: string)
    requires OnStack(s.stack) && IsOperand(t)
    ensures Advanced(s, [t], Shunt(s.output + [t], s.stack))
  {
    OperandsAppend(s.output, [t]);
    assert Operands([t]) == [t];
  }

  lemma AdvancedAfterMove(s: Shunt, r: Shunt, t: string, s': Shunt)
    requires Moved(s, r) && Advanced(r, [t], s')
    ensures Advanced(s, [t], s')
  {
  }

  lemma AdvancedTrans(s: Shunt, a: seq<string>, s1: Shunt, b: seq<string>, s2: Shunt)
    requires Advanced(s, a, s1) && Advanced(s1, b, s2)
    ensures Advanced(s, a + b, s2)
  {
    KeptTrans(s, a, s1, b, s2);
    CountedTrans(s, a, s1, b, s2);
  }

  lemma KeptTrans(s: Shunt, a: seq<string>, s1: Shunt, b: seq<string>, s2: Shunt)
    requires Kept(s, a, s1) && Kept(s1, b, s2)
    ensures Kept(s, a + b, s2)
  {
    OperandsAppend(a, b);
    Chained(Operands(s.output), Operands(a), Operands(s1.output), Operands(b), Operands(s2.output));
    assert multiset(a + b) == multiset(a) + multiset(b);
    CensusTrans(Census(s), multiset(a), multiset(b), Census(s1), Census(s2));
  }

  lemma Chained(o: seq<string>, x: seq<string>, o1: seq<string>, y: seq<string>, o2: seq<string>)
    requires o1 == o + x && o2 == o1 + y
    ensures o2 == o + (x + y)
  {
  }

  lemma CensusTrans(c: multiset<string>, m: multiset<string>, n: multiset<string>, c1: multiset<string>, c2: multiset<string>)
    requires c1 == c + NoParens(m) && c2 == c1 + NoParens(n)
    ensures c2 == c + NoParens(m + n)
  {
    NoParensAdd(m, n);
  }

  lemma CountedTrans(s: Shunt, a: seq<string>, s1: Shunt, b: seq<string>, s2: Shunt)
    requires Counted(s, a, s1) && Counted(s1, b, s2)
    ensures Counted(s, a + b, s2)
  {
    assert multiset(a + b) == multiset(a) + multiset(b);
  }

  lemma NoParensAdd(m: multiset<string>, n: multiset<string>)
    ensures NoParens(m + n) == NoParens(m) + NoParens(n)
  {
    forall x
      ensures NoParens(m + n)[x] == (NoParens(m) + NoParens(n))[x]
    {
    }
  }

  lemma {:induction false} RunFacts(s: Shunt, ts: seq<string>, unaryPops: bool)
    requires OnStack(s.stack) && Run(s, ts, unaryPops).Success?
    ensures Advanced(s, ts, Run(s, ts, unaryPops).value)
    decreases |ts|
  {
    if |ts| == 0 {
      NothingAdvanced(s, ts);
    } else {
      var t, rest := ts[0], ts[1..];
      var s1 := Step(s, t, unaryPops).value;
      StepFacts(s, t, unaryPops);
      RunFacts(s1, rest, unaryPops);
      assert ts == [t] + rest;
      AdvancedTrans(s, [t], s1, rest, Run(s1, rest, unaryPops).value);
    }
  }

  lemma NothingAdvanced(s: Shunt, ts: seq<string>)
    requires OnStack(s.stack) && ts == []
    ensures Advanced(s, ts, s)
  {
  }

  /** A run that returns never closes more parentheses than are open. */
  lemma {:induction false} RunMatched(s: Shunt, ts: seq<string>, unaryPops: bool)
    requires OnStack(s.stack) && Run(s, ts, unaryPops).Success?
    ensures forall i :: 0 <= i <= |ts| ==> Closes(ts[..i]) <= Opens(ts[..i]) + Opens(s.stack)
    decreases |ts|
  {
    if |ts| > 0 {
      var t := ts[0];
      var s1 := Step(s, t, unaryPops).value;
      StepFacts(s, t, unaryPops);
      RunMatched(s1, ts[1..], unaryPops);
      forall i | 0 <= i <= |ts|
        ensures Closes(ts[..i]) <= Opens(ts[..i]) + Opens(s.stack)
      {
        if i > 0 {
          PrefixCons(ts, i - 1);
        }
      }
    }
  }

  /** The parentheses of a non-empty prefix: those of the first token and of the rest's prefix. */
  lemma PrefixCons(ts: seq<string>, i: nat)
    requires i < |ts|
    ensures Closes(ts[..i + 1]) == Closes([ts[0]]) + Closes(ts[1..][..i])
    ensures Opens(ts[..i + 1]) == Opens([ts[0]]) + Opens(ts[1..][..i])
  {
    assert ts[..i + 1] == [ts[0]] + ts[1..][..i];
  }

  lemma {:induction false} StackOperands(stack: seq<string>)
    requires OnStack(stack)
    ensures Operands(stack) == [] && Closes(stack) == 0
    decreases |stack|
  {
    if |stack| > 0 {
      StackOperands(stack[1..]);
      assert stack == [stack[0]] + stack[1..];
    }
  }

  /** The flush: the output of the run, then the stack from the top down. */
  lemma FlushFacts(s: Shunt)
    requires OnStack(s.stack)
    ensures var out := Flushed(s);
      NoParens(multiset(out)) == Census(s) && |out| == |s.output| + |s.stack|
      && Opens(out) == Opens(s.output) + Opens(s.stack) && Closes(out) == Closes(s.output)
      && Operands(out) == Operands(s.output)
  {
    var r := Reverse(s.stack);
    ReverseMultiset(s.stack);
    assert OnStack(r);
    StackOperands(s.stack);
    StackOperands(r);
    OperandsAppend(s.output, r);
  }

  /**
   * Whatever toPostfix returns: the tokens other than parentheses, each as
   * often as in the input and the keywords in their input order; one "("
   * for each "(" left unmatched, flushed with the stack; no ")". It
   * returns only when no prefix of the input closes more parentheses than
   * it opens.
   */
  lemma PostfixShape(ts: seq<string>)
    requires Postfix(ts).Success?
    ensures var out := Postfix(ts).value;
      NoParens(multiset(out)) == NoParens(multiset(ts)) && Operands(out) == Operands(ts)
      && Opens(out) + Closes(ts) == Opens(ts) && Closes(out) == 0 && |out| + 2 * Closes(ts) == |ts|
    ensures forall i :: 0 <= i <= |ts| ==> Closes(ts[..i]) <= Opens(ts[..i])
  {
    var s0 := Shunt([], []);
    RunFacts(s0, ts, true);
    RunMatched(s0, ts, true);
    FlushFacts(Run(s0, ts, true).value);
    assert Census(s0) == multiset{};
  }

  /** With as many ")" as "(", the output holds no parenthesis and is shorter by all of them. */
  lemma PostfixBalanced(ts: seq<string>)
    requires Postfix(ts).Success? && Opens(ts) == Closes(ts)
    ensures var out := Postfix(ts).value;
      "(" !in out && ")" !in out && |out| == |ts| - Opens(ts) - Closes(ts)
  {
    PostfixShape(ts);
  }

  /** A ")" with no "(" to match makes toPostfix throw. */
  lemma UnmatchedCloseFails(ts: seq<string>, i: nat)
    requires i <= |ts| && Closes(ts[..i]) > Opens(ts[..i])
    ensures Postfix(ts).Failure?
  {
    if Postfix(ts).Success? {
      PostfixShape(ts);
    }
  }

  /** With every "(" matched in time and operators in upper case, toPostfix returns. */
  lemma {:induction false} RunSucceeds(s: Shunt, ts: seq<string>, unaryPops: bool)
    requires OnStack(s.stack)
    requires forall i :: 0 <= i <= |ts| ==> Closes(ts[..i]) <= Opens(ts[..i]) + Opens(s.stack)
    requires forall k :: 0 <= k < |ts| && IsOperatorName(ts[k]) ==> IsPrecedenceKey(ts[k])
    ensures Run(s, ts, unaryPops).Success?
    decreases |ts|
  {
    if |ts| > 0 {
      var t := ts[0];
      assert ts[..1] == [t];
      if t == ")" {
        PopToOpenMoves(s);
      }
      assert Step(s, t, unaryPops).Success?;
      var s1 := Step(s, t, unaryPops).value;
      StepFacts(s, t, unaryPops);
      forall i | 0 <= i <= |ts[1..]|
        ensures Closes(ts[1..][..i]) <= Opens(ts[1..][..i]) + Opens(s1.stack)
      {
        PrefixCons(ts, i);
      }
      RunSucceeds(s1, ts[1..], unaryPops);
    }
  }

  lemma PostfixSucceeds(ts: seq<string>)
    requires forall i :: 0 <= i <= |ts| ==> Closes(ts[..i]) <= Opens(ts[..i])
    requires forall k :: 0 <= k < |ts| && IsOperatorName(ts[k]) ==> IsPrecedenceKey(ts[k])
    ensures Postfix(ts).Success?
  {
    RunSucceeds(Shunt([], []), ts, true);
  }
}
