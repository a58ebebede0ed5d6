/**
 * What a boolean query means, and the proof that tokenize, toPostfix and
 * evaluatePostfix together compute it.
 *
 * A query is a tree of keywords and the operators NOT, AND and OR. It is
 * written with the fewest parentheses the precedences NOT > AND > OR allow,
 * AND and OR associating to the left. The code as written handles NOT NOT x
 * wrongly (see DoubleNot), so the correctness theorem for it writes the
 * operand of a NOT that is itself a NOT in parentheses; the corrected
 * conversion handles both.
 */
module BooleanQuery {
  import opened Base
  import opened QueryParser
  import opened ShuntingYard
  import opened PostfixEvaluator

  datatype Query =
    | Keyword(word: string)
    | Not(operand: Query)
    | And(left: Query, right: Query)
    | Or(left: Query, right: Query)

  /** A keyword token: a non-empty run of word characters that is not an operator name. */
  predicate IsKeyword(w: string)
  {
    |w| > 0 && AllWordChars(w) && !IsOperatorName(w)
  }

  predicate ValidQuery(q: Query)
  {
    match q
    case Keyword(w) => IsKeyword(w)
    case Not(e) => ValidQuery(e)
    case And(l, r) => ValidQuery(l) && ValidQuery(r)
    case Or(l, r) => ValidQuery(l) && ValidQuery(r)
  }

  /** The binding strength of the query's outermost operator; a keyword binds tightest. */
  function Level(q: Query): nat
  {
    match q
    case Or(_, _) => 1
    case And(_, _) => 2
    case Not(_) => 3
    case Keyword(_) => 4
  }

  /**
   * The tokens of q in a context that needs level p; q is put in
   * parentheses when it binds more loosely. The operand of NOT is written
   * at level notLevel: 3 writes NOT NOT x, 4 writes NOT ( NOT x ).
   */
  function Infix(q: Query, p: nat, notLevel: nat): seq<string>
    decreases q, if Level(q) < p then 1 else 0
  {
    if Level(q) < p then ["("] + Infix(q, 1, notLevel) + [")"]
    else
      match q
      case Keyword(w) => [w]
      case Not(e) => ["NOT"] + Infix(e, notLevel, notLevel)
      case And(l, r) => Infix(l, 2, notLevel) + ["AND"] + Infix(r, 3, notLevel)
      case Or(l, r) => Infix(l, 1, notLevel) + ["OR"] + Infix(r, 2, notLevel)
  }

  /** The postfix form of q: the operands, then the operator. */
  function PostfixOf(q: Query): seq<string>
  {
    match q
    case Keyword(w) => [w]
    case Not(e) => PostfixOf(e) + ["NOT"]
    case And(l, r) => PostfixOf(l) + PostfixOf(r) + ["AND"]
    case Or(l, r) => PostfixOf(l) + PostfixOf(r) + ["OR"]
  }

  /** The files that satisfy q. */
  function Meaning(q: Query, index: map<string, set<string>>, allFiles: set<string>): set<string>
  {
    match q
    case Keyword(w) => Lookup(index, w)
    case Not(e) => allFiles - Meaning(e, index, allFiles)
    case And(l, r) => Meaning(l, index, allFiles) * Meaning(r, index, allFiles)
    case Or(l, r) => Meaning(l, index, allFiles) + Meaning(r, index, allFiles)
  }

  /* toPostfix on the written form. */

  function NotLevel(unaryPops: bool): nat
  {
    if unaryPops then 4 else 3
  }

  /**
   * The stack may sit below an expression of level p: no operator on it
   * would be popped by an operator of that expression.
   */
  predicate Below(stack: seq<string>, p: nat, unaryPops: bool)
  {
    |stack| == 0 || Top(stack) == "(" || Precedence(Top(stack)) < p || (p == 3 && !unaryPops)
  }

  /** What may follow an expression of level p: the end, a ")", or AND or OR binding no tighter. */
  predicate Ends(rest: seq<string>, p: nat)
  {
    |rest| == 0 || rest[0] == ")" || ((rest[0] == "AND" || rest[0] == "OR") && Precedence(rest[0]) <= p)
  }

  /** An operator left on the stack leaves before whatever may follow its operands. */
  lemma PopPending(output: seq<string>, stack: seq<string>, op: string, rest: seq<string>, unaryPops: bool)
    requires IsPrecedenceKey(op) && Ends(rest, Precedence(op))
    ensures Completed(Shunt(output, stack + [op]), rest, unaryPops) == Completed(Shunt(output + [op], stack), rest, unaryPops)
  {
    var s, s' := Shunt(output, stack + [op]), Shunt(output + [op], stack);
    if |rest| == 0 {
      ReverseAppend(stack, op);
      assert Flushed(s) == Flushed(s');
    } else {
      var t := rest[0];
      assert rest == [t] + rest[1..];
      RunCons(s, t, rest[1..], unaryPops);
      RunCons(s', t, rest[1..], unaryPops);
      assert Top(s.stack) == op && Pop(s.stack) == stack;
      if t == ")" {
        assert PopToOpen(s) == PopToOpen(s');
      } else {
        KeyIsOperatorName(t);
        assert PopAtLeast(s, Precedence(t)) == PopAtLeast(s', Precedence(t));
        assert |stack| == 0 ==> stack + [t] == [t];
      }
      assert Step(s, t, unaryPops) == Step(s', t, unaryPops);
    }
  }

  /** An operator over a stack that sits below its level is pushed without popping anything. */
  lemma PushOp(s: Shunt, op: string, unaryPops: bool)
    requires IsPrecedenceKey(op) && Below(s.stack, Precedence(op), unaryPops)
    ensures Step(s, op, unaryPops) == Success(Shunt(s.output, s.stack + [op]))
  {
    KeyIsOperatorName(op);
    if |s.stack| == 0 {
      assert s.stack + [op] == [op];
    } else if op != "NOT" || unaryPops {
      assert PopAtLeast(s, Precedence(op)) == s;
    }
  }

  // A proof step kept in a lemma of its own so that the sequence or set equality stays out of its callers' larger proofs; not a claim about the model.
  lemma OutputAfter(output: seq<string>, q: Query)
    ensures match q
      case Keyword(w) => true
      case Not(e) => output + PostfixOf(q) == output + PostfixOf(e) + ["NOT"]
      case And(l, r) => output + PostfixOf(q) == output + PostfixOf(l) + PostfixOf(r) + ["AND"]
      case Or(l, r) => output + PostfixOf(q) == output + PostfixOf(l) + PostfixOf(r) + ["OR"]
  {
  }

  /** A keyword, or a query of level p in a context of level p, both at any stack. */
  lemma {:induction false} ShuntInfix(q: Query, p: nat, unaryPops: bool, s: Shunt, rest: seq<string>)
    requires ValidQuery(q) && 1 <= p <= 4
    requires Below(s.stack, p, unaryPops) && Ends(rest, p)
    ensures Completed(s, Infix(q, p, NotLevel(unaryPops)) + rest, unaryPops)
      == Completed(Shunt(s.output + PostfixOf(q), s.stack), rest, unaryPops)
    decreases q, if Level(q) < p then 1 else 0, 1
  {
    if Level(q) < p {
      ShuntParen(q, unaryPops, s, rest);
    } else {
      match q
      case Keyword(w) =>
        RunCons(s, w, rest, unaryPops);
      case Not(e) =>
        ShuntNot(e, unaryPops, s, rest);
        OutputAfter(s.output, q);
      case And(l, r) =>
        ShuntBinary(q, l, "AND", r, unaryPops, s, rest);
        OutputAfter(s.output, q);
      case Or(l, r) =>
        ShuntBinary(q, l, "OR", r, unaryPops, s, rest);
        OutputAfter(s.output, q);
    }
  }

  /** A query in parentheses: "(" shields the stack below, and ")" removes it again. */
  lemma {:induction false} ShuntParen(q: Query, unaryPops: bool, s: Shunt, rest: seq<string>)
    requires ValidQuery(q)
    requires Ends(rest, 4)
    ensures Completed(s, ["("] + Infix(q, 1, NotLevel(unaryPops)) + [")"] + rest, unaryPops)
      == Completed(Shunt(s.output + PostfixOf(q), s.stack), rest, unaryPops)
    decreases q, 1, 0
  {
    var body := Infix(q, 1, NotLevel(unaryPops));
    var s1 := Shunt(s.output, s.stack + ["("]);
    var s2 := Shunt(s.output + PostfixOf(q), s.stack + ["("]);
    assert ["("] + body + [")"] + rest == ["("] + (body + ([")"] + rest));
    RunCons(s, "(", body + ([")"] + rest), unaryPops);
    ShuntInfix(q, 1, unaryPops, s1, [")"] + rest);
    RunCons(s2, ")", rest, unaryPops);
    assert PopToOpen(s2) == s2;
  }

  /** NOT is pushed, its operand follows, and NOT leaves the stack before what may follow. */
  lemma {:induction false} ShuntNot(e: Query, unaryPops: bool, s: Shunt, rest: seq<string>)
    requires ValidQuery(e)
    requires Below(s.stack, 3, unaryPops) && Ends(rest, 3)
    ensures Completed(s, ["NOT"] + Infix(e, NotLevel(unaryPops), NotLevel(unaryPops)) + rest, unaryPops)
      == Completed(Shunt(s.output + PostfixOf(e) + ["NOT"], s.stack), rest, unaryPops)
    decreases Not(e), 0, 0
  {
    var nl := NotLevel(unaryPops);
    var body := Infix(e, nl, nl);
    var s1 := Shunt(s.output, s.stack + ["NOT"]);
    assert ["NOT"] + body + rest == ["NOT"] + (body + rest);
    RunCons(s, "NOT", body + rest, unaryPops);
    PushOp(s, "NOT", unaryPops);
    ShuntInfix(e, nl, unaryPops, s1, rest);
    PopPending(s.output + PostfixOf(e), s.stack, "NOT", rest, unaryPops);
  }

  /** The left operand, then the operator pushed above it, then the right operand, then the operator leaves. */
  lemma {:induction false} ShuntBinary(q: Query, l: Query, op: string, r: Query, unaryPops: bool, s: Shunt, rest: seq<string>)
    requires (q == And(l, r) && op == "AND") || (q == Or(l, r) && op == "OR")
    requires ValidQuery(l) && ValidQuery(r)
    requires Below(s.stack, Precedence(op), unaryPops) && Ends(rest, Precedence(op))
    ensures var nl, p := NotLevel(unaryPops), Precedence(op);
      Completed(s, Infix(l, p, nl) + [op] + Infix(r, p + 1, nl) + rest, unaryPops)
      == Completed(Shunt(s.output + PostfixOf(l) + PostfixOf(r) + [op], s.stack), rest, unaryPops)
    decreases q, 0, 0
  {
    var nl, p := NotLevel(unaryPops), Precedence(op);
    var left, right := Infix(l, p, nl), Infix(r, p + 1, nl);
    var s1 := Shunt(s.output + PostfixOf(l), s.stack);
    var s2 := Shunt(s1.output, s.stack + [op]);
    assert left + [op] + right + rest == left + ([op] + (right + rest));
    ShuntInfix(l, p, unaryPops, s, [op] + (right + rest));
    RunCons(s1, op, right + rest, unaryPops);
    PushOp(s1, op, unaryPops);
    ShuntInfix(r, p + 1, unaryPops, s2, rest);
    PopPending(s1.output + PostfixOf(r), s.stack, op, rest, unaryPops);
  }

  /** Written with the fewest parentheses, a valid query converts to its postfix form. */
  lemma ToPostfixCorrect(q: Query)
    requires ValidQuery(q)
    ensures Postfix(Infix(q, 1, 4)) == Success(PostfixOf(q))
  {
    ShuntInfix(q, 1, true, Shunt([], []), []);
    assert Infix(q, 1, 4) + [] == Infix(q, 1, 4) && [] + PostfixOf(q) == PostfixOf(q);
    assert Flushed(Shunt(PostfixOf(q), [])) == PostfixOf(q);
  }

  /** The corrected conversion also reads NOT NOT x without parentheses. */
  lemma PostfixFixedCorrect(q: Query)
    requires ValidQuery(q)
    ensures PostfixFixed(Infix(q, 1, 3)) == Success(PostfixOf(q))
  {
    ShuntInfix(q, 1, false, Shunt([], []), []);
    assert Infix(q, 1, 3) + [] == Infix(q, 1, 3) && [] + PostfixOf(q) == PostfixOf(q);
    assert Flushed(Shunt(PostfixOf(q), [])) == PostfixOf(q);
  }

  /* evaluatePostfix on the postfix form. */

  /** The postfix form of q pushes exactly the set of files that satisfy q. */
  lemma {:induction false} EvalPostfixOf(q: Query, stack: seq<set<string>>, rest: seq<string>, index: map<string, set<string>>, allFiles: set<string>)
    requires ValidQuery(q)
    ensures EvalRun(stack, PostfixOf(q) + rest, index, allFiles) == EvalRun(stack + [Meaning(q, index, allFiles)], rest, index, allFiles)
    decreases q, 1
  {
    match q
    case Keyword(w) =>
      EvalRunCons(stack, w, rest, index, allFiles);
    case Not(e) =>
      var me := Meaning(e, index, allFiles);
      assert PostfixOf(q) + rest == PostfixOf(e) + (["NOT"] + rest);
      EvalPostfixOf(e, stack, ["NOT"] + rest, index, allFiles);
      EvalRunCons(stack + [me], "NOT", rest, index, allFiles);
      KeyIsOperatorName("NOT");
      assert (stack + [me])[..|stack|] == stack;
    case And(l, r) =>
      EvalBinary(q, l, "AND", r, stack, rest, index, allFiles);
    case Or(l, r) =>
      EvalBinary(q, l, "OR", r, stack, rest, index, allFiles);
  }

  lemma {:induction false} EvalBinary(q: Query, l: Query, op: string, r: Query, stack: seq<set<string>>, rest: seq<string>,
                                      index: map<string, set<string>>, allFiles: set<string>)
    requires (q == And(l, r) && op == "AND") || (q == Or(l, r) && op == "OR")
    requires ValidQuery(l) && ValidQuery(r)
    ensures EvalRun(stack, PostfixOf(q) + rest, index, allFiles) == EvalRun(stack + [Meaning(q, index, allFiles)], rest, index, allFiles)
    decreases q, 0
  {
    var ml, mr := Meaning(l, index, allFiles), Meaning(r, index, allFiles);
    var st := stack + [ml] + [mr];
    assert PostfixOf(q) + rest == PostfixOf(l) + (PostfixOf(r) + ([op] + rest));
    EvalPostfixOf(l, stack, PostfixOf(r) + ([op] + rest), index, allFiles);
    EvalPostfixOf(r, stack + [ml], [op] + rest, index, allFiles);
    EvalRunCons(st, op, rest, index, allFiles);
    EvalOperator(stack, ml, op, mr, index, allFiles);
  }

  /** AND and OR replace the two sets on top by their intersection or union. */
  lemma EvalOperator(stack: seq<set<string>>, ml: set<string>, op: string, mr: set<string>, index: map<string, set<string>>, allFiles: set<string>)
    requires op == "AND" || op == "OR"
    ensures EvalStep(stack + [ml] + [mr], op, index, allFiles) == Success(stack + [if op == "AND" then ml * mr else ml + mr])
  {
    var st := stack + [ml] + [mr];
    KeyIsOperatorName(op);
    assert st[..|st| - 2] == stack && st[|st| - 1] == mr && st[|st| - 2] == ml;
  }

  /** evaluatePostfix on the postfix form of q yields the files that satisfy q. */
  lemma EvaluationCorrect(q: Query, index: map<string, set<string>>, allFiles: set<string>)
    requires ValidQuery(q)
    ensures Evaluation(PostfixOf(q), index, allFiles) == Success(Meaning(q, index, allFiles))
  {
    EvalPostfixOf(q, [], [], index, allFiles);
    assert PostfixOf(q) + [] == PostfixOf(q) && [] + [Meaning(q, index, allFiles)] == [Meaning(q, index, allFiles)];
  }

  /* The whole query: Main reads a line, then tokenize, toPostfix and evaluatePostfix. */

  /** An exception from one of the three stages. */
  datatype QueryError =
    | ConvertError(convert: PostfixError)
    | EvaluateError(evaluate: EvalError)

  /** The files the query matches, or the exception the pipeline throws. */
  function Answer(query: string, index: map<string, set<string>>, allFiles: set<string>, unaryPops: bool)
    : Result<set<string>, QueryError>
  {
    match Completed(Shunt([], []), Tokens(query), unaryPops)
    case Failure(e) => Failure(ConvertError(e))
    case Success(postfix) =>
      match Evaluation(postfix, index, allFiles)
      case Failure(e) => Failure(EvaluateError(e))
      case Success(files) => Success(files)
  }

  /** One query through the three stages, in the order Main calls them. */
  method Search(query: string, invertedIndex: map<string, set<string>>, allFiles: set<string>)
    returns (r: Result<set<string>, QueryError>)
    ensures r == Answer(query, invertedIndex, allFiles, true)
  {
    var tokens := Tokenize(query);
    var postfix := ToPostfix(tokens);
    if postfix.Failure? {
      return Failure(ConvertError(postfix.error));
    }
    var files := EvaluatePostfix(postfix.value, invertedIndex, allFiles);
    if files.Failure? {
      return Failure(EvaluateError(files.error));
    }
    r := Success(files.value);
  }

  predicate AllWellFormed(ts: seq<string>)
  {
    forall i :: 0 <= i < |ts| ==> WellFormed(ts[i])
  }

  lemma WellFormedConcat(a: seq<string>, b: seq<string>)
    requires AllWellFormed(a) && AllWellFormed(b)
    ensures AllWellFormed(a + b)
  {
    assert forall i :: 0 <= i < |a + b| ==> (a + b)[i] == if i < |a| then a[i] else b[i - |a|];
  }

  lemma OperatorsWellFormed()
    ensures WellFormed("NOT") && WellFormed("AND") && WellFormed("OR")
  {
    assert forall k :: 0 <= k < 3 ==> "NOT"[k] in "NOT";
    assert forall k :: 0 <= k < 3 ==> "AND"[k] in "AND";
    assert forall k :: 0 <= k < 2 ==> "OR"[k] in "OR";
  }

  /** Every token of the written form is one that tokenize can yield. */
  lemma {:induction false} InfixWellFormed(q: Query, p: nat, notLevel: nat)
    requires ValidQuery(q)
    ensures AllWellFormed(Infix(q, p, notLevel))
    decreases q, if Level(q) < p then 1 else 0
  {
    OperatorsWellFormed();
    if Level(q) < p {
      InfixWellFormed(q, 1, notLevel);
      WellFormedConcat(["("], Infix(q, 1, notLevel));
      WellFormedConcat(["("] + Infix(q, 1, notLevel), [")"]);
    } else {
      match q
      case Keyword(w) =>
      case Not(e) =>
        InfixWellFormed(e, notLevel, notLevel);
        WellFormedConcat(["NOT"], Infix(e, notLevel, notLevel));
      case And(l, r) =>
        InfixWellFormed(l, 2, notLevel);
        InfixWellFormed(r, 3, notLevel);
        WellFormedConcat(Infix(l, 2, notLevel), ["AND"]);
        WellFormedConcat(Infix(l, 2, notLevel) + ["AND"], Infix(r, 3, notLevel));
      case Or(l, r) =>
        InfixWellFormed(l, 1, notLevel);
        InfixWellFormed(r, 2, notLevel);
        WellFormedConcat(Infix(l, 1, notLevel), ["OR"]);
        WellFormedConcat(Infix(l, 1, notLevel) + ["OR"], Infix(r, 2, notLevel));
    }
  }

  /** A valid query written out with single spaces, typed into Main, finds exactly the files that satisfy it. */
  lemma SearchCorrect(q: Query, index: map<string, set<string>>, allFiles: set<string>)
    requires ValidQuery(q)
    ensures Answer(Join(Infix(q, 1, 4)), index, allFiles, true) == Success(Meaning(q, index, allFiles))
  {
    InfixWellFormed(q, 1, 4);
    TokensOfJoin(Infix(q, 1, 4));
    ToPostfixCorrect(q);
    EvaluationCorrect(q, index, allFiles);
  }

  /** With the corrected conversion, the same holds when NOT NOT is written without parentheses. */
  lemma SearchFixedCorrect(q: Query, index: map<string, set<string>>, allFiles: set<string>)
    requires ValidQuery(q)
    ensures Answer(Join(Infix(q, 1, 3)), index, allFiles, false) == Success(Meaning(q, index, allFiles))
  {
    InfixWellFormed(q, 1, 3);
    TokensOfJoin(Infix(q, 1, 3));
    PostfixFixedCorrect(q);
    EvaluationCorrect(q, index, allFiles);
  }

  /**
   * toPostfix as written turns NOT NOT a into NOT a NOT (the second NOT pops
   * the first), and evaluatePostfix then pops an empty stack. The corrected
   * conversion gives a NOT NOT, the complement of the complement.
   */
  lemma DoubleNot(index: map<string, set<string>>, allFiles: set<string>)
    ensures Postfix(["NOT", "NOT", "a"]) == Success(["NOT", "a", "NOT"])
    ensures Answer("NOT NOT a", index, allFiles, true) == Failure(EvaluateError(MissingOperand))
    ensures Answer("NOT NOT a", index, allFiles, false) == Success(allFiles - (allFiles - Lookup(index, "a")))
  {
    DoubleNotConverts();
    DoubleNotThrows(index, allFiles);
    DoubleNotFixed(index, allFiles);
  }

  lemma DoubleNotThrows(index: map<string, set<string>>, allFiles: set<string>)
    ensures Answer("NOT NOT a", index, allFiles, true) == Failure(EvaluateError(MissingOperand))
  {
    DoubleNotTokens();
    DoubleNotConverts();
    DoubleNotFails(index, allFiles);
    AnswerOf("NOT NOT a", index, allFiles, true, ["NOT", "NOT", "a"], ["NOT", "a", "NOT"]);
  }

  lemma DoubleNotFixed(index: map<string, set<string>>, allFiles: set<string>)
    ensures Answer("NOT NOT a", index, allFiles, false) == Success(allFiles - (allFiles - Lookup(index, "a")))
  {
    var q := Not(Not(Keyword("a")));
    DoubleNotTokens();
    PostfixFixedCorrect(q);
    EvaluationCorrect(q, index, allFiles);
    AnswerOf("NOT NOT a", index, allFiles, false, Infix(q, 1, 3), PostfixOf(q));
    assert Answer("NOT NOT a", index, allFiles, false) == Success(Meaning(q, index, allFiles));
    assert Meaning(Keyword("a"), index, allFiles) == Lookup(index, "a");
  }

  lemma AnswerOf(query: string, index: map<string, set<string>>, allFiles: set<string>, unaryPops: bool, ts: seq<string>, postfix: seq<string>)
    requires Tokens(query) == ts && Completed(Shunt([], []), ts, unaryPops) == Success(postfix)
    ensures var r := Evaluation(postfix, index, allFiles);
      Answer(query, index, allFiles, unaryPops) == if r.Success? then Success(r.value) else Failure(EvaluateError(r.error))
  {
  }

  /** A token of one character is never an operator name. */
  lemma OneCharOperand(t: string)
    requires |t| == 1
    ensures !IsOperatorName(t)
  {
  }

  lemma DoubleNotTokens()
    ensures ValidQuery(Not(Not(Keyword("a"))))
    ensures Tokens("NOT NOT a") == ["NOT", "NOT", "a"] == Infix(Not(Not(Keyword("a"))), 1, 3)
  {
    var q := Not(Not(Keyword("a")));
    var ts := ["NOT", "NOT", "a"];
    OneCharOperand("a");
    assert Infix(q, 1, 3) == ts;
    assert Join(ts) == "NOT NOT a";
    InfixWellFormed(q, 1, 3);
    TokensOfJoin(ts);
  }

  lemma DoubleNotConverts()
    ensures Postfix(["NOT", "NOT", "a"]) == Success(["NOT", "a", "NOT"])
  {
    KeyIsOperatorName("NOT");
    OneCharOperand("a");
    var s0, s1, s2, s3 := Shunt([], []), Shunt([], ["NOT"]), Shunt(["NOT"], ["NOT"]), Shunt(["NOT", "a"], ["NOT"]);
    assert Step(s0, "NOT", true) == Success(s1);
    assert PopAtLeast(Shunt(["NOT"], []), 3) == Shunt(["NOT"], []);
    assert PopAtLeast(s1, 3) == Shunt(["NOT"], []);
    assert Step(s1, "NOT", true) == Success(s2);
    assert s2.output + ["a"] == s3.output;
    assert Step(s2, "a", true) == Success(s3);
    assert Reverse(["NOT"]) == ["NOT"];
    assert s3.output + ["NOT"] == ["NOT", "a", "NOT"];
    assert Completed(s3, [], true) == Success(["NOT", "a", "NOT"]);
    RunCons(s2, "a", [], true);
    RunCons(s1, "NOT", ["a"], true);
    RunCons(s0, "NOT", ["NOT", "a"], true);
  }

  lemma DoubleNotFails(index: map<string, set<string>>, allFiles: set<string>)
    ensures Evaluation(["NOT", "a", "NOT"], index, allFiles) == Failure(MissingOperand)
  {
    KeyIsOperatorName("NOT");
    assert EvalStep([], "NOT", index, allFiles) == Failure(MissingOperand);
    EvalRunCons([], "NOT", ["a", "NOT"], index, allFiles);
  }

  /**
   * An operator in lower case is recognized as one, but its precedence is
   * looked up as written: a and b converts, and a third operand makes the
   * second operator find the first on the stack and throw.
   */
  lemma LowerCaseOperator()
    ensures Postfix(["a", "and", "b"]) == Success(["a", "b", "and"])
    ensures Postfix(["a", "and", "b", "and", "c"]) == Failure(NullPrecedence)
  {
    LowerCaseConverts();
    LowerCaseThrows();
  }

  lemma LowerCaseConverts()
    ensures Postfix(["a", "and", "b"]) == Success(["a", "b", "and"])
  {
    OneCharOperand("a");
    OneCharOperand("b");
    assert Upper("and") == "AND";
    var s0, s1, s2, s3 := Shunt([], []), Shunt(["a"], []), Shunt(["a"], ["and"]), Shunt(["a", "b"], ["and"]);
    assert s0.output + ["a"] == s1.output;
    assert Step(s0, "a", true) == Success(s1);
    assert Step(s1, "and", true) == Success(s2);
    assert s2.output + ["b"] == s3.output;
    assert Step(s2, "b", true) == Success(s3);
    assert Reverse(["and"]) == ["and"];
    assert s3.output + ["and"] == ["a", "b", "and"];
    assert Completed(s3, [], true) == Success(["a", "b", "and"]);
    RunCons(s2, "b", [], true);
    RunCons(s1, "and", ["b"], true);
    RunCons(s0, "a", ["and", "b"], true);
  }

  lemma LowerCaseThrows()
    ensures Postfix(["a", "and", "b", "and", "c"]) == Failure(NullPrecedence)
  {
    OneCharOperand("a");
    OneCharOperand("b");
    assert Upper("and") == "AND";
    var s0, s1, s2, s3 := Shunt([], []), Shunt(["a"], []), Shunt(["a"], ["and"]), Shunt(["a", "b"], ["and"]);
    assert s0.output + ["a"] == s1.output;
    assert Step(s0, "a", true) == Success(s1);
    assert Step(s1, "and", true) == Success(s2);
    assert s2.output + ["b"] == s3.output;
    assert Step(s2, "b", true) == Success(s3);
    assert Step(s3, "and", true) == Failure(NullPrecedence);
    RunCons(s3, "and", ["c"], true);
    RunCons(s2, "b", ["and", "c"], true);
    RunCons(s1, "and", ["b", "and", "c"], true);
    RunCons(s0, "a", ["and", "b", "and", "c"], true);
  }
}
