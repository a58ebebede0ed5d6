/**
 * PostfixEvaluator.evaluatePostfix: a postfix query evaluated over sets of
 * file names, with a stack of sets whose last element is the top.
 */
module PostfixEvaluator {
  import opened Base
  import opened ShuntingYard

  /** stack.pop() on an empty stack: an operator without enough operands below it. */
  datatype EvalError = MissingOperand

  /** intersection(set1, set2): a copy of set1 with retainAll(set2). */
  function Intersection(set1: set<string>, set2: set<string>): (r: set<string>)
    ensures forall x :: x in r <==> x in set1 && x in set2
  {
    set1 * set2
  }

  /** union(set1, set2): a copy of set1 with addAll(set2). */
  function Union(set1: set<string>, set2: set<string>): (r: set<string>)
    ensures forall x :: x in r <==> x in set1 || x in set2
  {
    set1 + set2
  }

  /** difference(set1, set2): a copy of set2 with removeAll(set1); note the order. */
  function Difference(set1: set<string>, set2: set<string>): (r: set<string>)
    ensures forall x :: x in r <==> x in set2 && x !in set1
  {
    set2 - set1
  }

  /** invertedIndex.getOrDefault(token, new HashSet<>()). */
  function Lookup(index: map<string, set<string>>, token: string): set<string>
  {
    if token in index then index[token] else {}
  }

  /**
   * One token: NOT replaces the top set by its complement in allFiles, AND
   * and OR replace the two top sets (left below right) by their
   * intersection or union, and any other token pushes its posting set.
   * The operators are recognized in any letter case (equalsIgnoreCase).
   */
  function EvalStep(stack: seq<set<string>>, token: string, index: map<string, set<string>>, allFiles: set<string>)
    : Result<seq<set<string>>, EvalError>
  {
    if IsOperatorName(token) then
      if Upper(token) == "NOT" then
        if |stack| == 0 then Failure(MissingOperand)
        else Success(stack[..|stack| - 1] + [Difference(stack[|stack| - 1], allFiles)])
      else if |stack| < 2 then Failure(MissingOperand)
      else
        var right, left := stack[|stack| - 1], stack[|stack| - 2];
        var result := if Upper(token) == "AND" then Intersection(left, right) else Union(left, right);
        Success(stack[..|stack| - 2] + [result])
    else Success(stack + [Lookup(index, token)])
  }

  /** The loop over the tokens from stack, stopping at the first exception. */
  function EvalRun(stack: seq<set<string>>, ts: seq<string>, index: map<string, set<string>>, allFiles: set<string>)
    : Result<seq<set<string>>, EvalError>
    decreases |ts|
  {
    if |ts| == 0 then Success(stack)
    else
      match EvalStep(stack, ts[0], index, allFiles)
      case Failure(e) => Failure(e)
      case Success(stack') => EvalRun(stack', ts[1..], index, allFiles)
  }

  /** The set on top of the final stack, or the empty set when the stack is empty. */
  function Evaluation(ts: seq<string>, index: map<string, set<string>>, allFiles: set<string>)
    : Result<set<string>, EvalError>
  {
    match EvalRun([], ts, index, allFiles)
    case Failure(e) => Failure(e)
    case Success(stack) => Success(if |stack| == 0 then {} else stack[|stack| - 1])
  }

  lemma EvalRunAt(stack: seq<set<string>>, ts: seq<string>, i: nat, index: map<string, set<string>>, allFiles: set<string>)
    requires i < |ts|
    ensures EvalStep(stack, ts[i], index, allFiles).Failure? ==>
      EvalRun(stack, ts[i..], index, allFiles) == Failure(EvalStep(stack, ts[i], index, allFiles).error)
    ensures EvalStep(stack, ts[i], index, allFiles).Success? ==>
      EvalRun(stack, ts[i..], index, allFiles) == EvalRun(EvalStep(stack, ts[i], index, allFiles).value, ts[i + 1..], index, allFiles)
  {
    assert ts[i..][0] == ts[i] && ts[i..][1..] == ts[i + 1..];
  }

  lemma EvalRunCons(stack: seq<set<string>>, t: string, rest: seq<string>, index: map<string, set<string>>, allFiles: set<string>)
    ensures EvalStep(stack, t, index, allFiles).Failure? ==>
      EvalRun(stack, [t] + rest, index, allFiles) == Failure(EvalStep(stack, t, index, allFiles).error)
    ensures EvalStep(stack, t, index, allFiles).Success? ==>
      EvalRun(stack, [t] + rest, index, allFiles) == EvalRun(EvalStep(stack, t, index, allFiles).value, rest, index, allFiles)
  {
    assert ([t] + rest)[0] == t && ([t] + rest)[1..] == rest;
  }

  /** evaluatePostfix, which copies before it changes a set, so the index and allFiles stay as they are. */
  method EvaluatePostfix(postfixTokens: seq<string>, invertedIndex: map<string, set<string>>, allFiles: set<string>)
    returns (r: Result<set<string>, EvalError>)
    ensures r == Evaluation(postfixTokens, invertedIndex, allFiles)
  {
    var stack: seq<set<string>> := [];
    for i := 0 to |postfixTokens|
      invariant EvalRun(stack, postfixTokens[i..], invertedIndex, allFiles) == EvalRun([], postfixTokens, invertedIndex, allFiles)
    {
      var token := postfixTokens[i];
      ghost var before := stack;
      EvalRunAt(before, postfixTokens, i, invertedIndex, allFiles);
      if IsOperatorName(token) {
        var result: set<string>;
        if Upper(token) == "NOT" {
          if |stack| == 0 {
            return Failure(MissingOperand);
          }
          var operand := stack[|stack| - 1];
          stack := stack[..|stack| - 1];
          result := Difference(operand, allFiles);
        } else {
          if |stack| < 2 {
            return Failure(MissingOperand);
          }
          var right := stack[|stack| - 1];
          stack := stack[..|stack| - 1];
          var left := stack[|stack| - 1];
          stack := stack[..|stack| - 1];
          assert stack == before[..|before| - 2];
          result := if Upper(token) == "AND" then Intersection(left, right) else Union(left, right);
        }
        stack := stack + [result];
      } else {
        stack := stack + [Lookup(invertedIndex, token)];
      }
      assert EvalStep(before, token, invertedIndex, allFiles) == Success(stack);
    }
    assert postfixTokens[|postfixTokens|..] == [];
    if |stack| == 0 {
      r := Success({});
    } else {
      r := Success(stack[|stack| - 1]);
    }
  }

  /** Every set the evaluation builds from posting sets inside allFiles is itself inside allFiles. */
  lemma {:induction false} EvalRunWithin(stack: seq<set<string>>, ts: seq<string>, index: map<string, set<string>>, allFiles: set<string>)
    requires forall t :: t in index ==> index[t] <= allFiles
    requires forall k :: 0 <= k < |stack| ==> stack[k] <= allFiles
    requires EvalRun(stack, ts, index, allFiles).Success?
    ensures var final := EvalRun(stack, ts, index, allFiles).value;
      forall k :: 0 <= k < |final| ==> final[k] <= allFiles
    decreases |ts|
  {
    if |ts| > 0 {
      var stack1 := EvalStep(stack, ts[0], index, allFiles).value;
      assert forall k :: 0 <= k < |stack1| ==> stack1[k] <= allFiles;
      EvalRunWithin(stack1, ts[1..], index, allFiles);
    }
  }

  /** When every posting set lies inside allFiles, so does the result of any query. */
  lemma EvaluationWithin(ts: seq<string>, index: map<string, set<string>>, allFiles: set<string>)
    requires forall t :: t in index ==> index[t] <= allFiles
    requires Evaluation(ts, index, allFiles).Success?
    ensures Evaluation(ts, index, allFiles).value <= allFiles
  {
    EvalRunWithin([], ts, index, allFiles);
  }

  /** An empty postfix query matches no file. */
  lemma EmptyQuery(index: map<string, set<string>>, allFiles: set<string>)
    ensures Evaluation([], index, allFiles) == Success({})
  {
  }
}
