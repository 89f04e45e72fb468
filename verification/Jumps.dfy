/** The "never completes normally" approximation on statements: IsJump. */
module Jumps {
  import opened Options

  // ----- statements -----

  type Store = map<string, int>

  /** An expression is a Throw node or any other one; evaluation may throw and has effects. */
  datatype Expression = Throw(operand: Store -> EvalResult) | Other(eval: Store -> EvalResult)

  datatype EvalResult = Value(v: int, store: Store) | Thrown(thrownStore: Store)

  /** The targets of breaks and continues are the identities of breakable statements. */
  datatype Statement =
    | Empty
    | ExpressionStatement(expression: Expression)
    | Block(id: nat, labelled: bool, statements: seq<Statement>)
    | If(condition: Expression, thenStatement: Statement, elseStatement: Statement)
    | Continue(target: nat)
    | Break(target: nat)
    | Return(result: Expression)
    | With(scope: Expression, body: Statement)
    | Switch(id: nat, tag: Expression, cases: seq<CaseClause>)
    | While(id: nat, condition: Expression, body: Statement)
    | DoWhile(id: nat, body: Statement, condition: Expression)
    | For(id: nat, init: Statement, condition: Expression, next: Statement, body: Statement)
    | ForEach(id: nat, subject: Expression, advance: Expression, body: Statement)
    | TryCatch(tryBlock: Statement, catchBlock: Statement)
    | TryFinally(tryBlock: Statement, finallyBlock: Statement)

  /** The default clause has no test. */
  datatype CaseClause = CaseClause(test: Option<Expression>, statements: seq<Statement>)

  /** IsJump as the classes of the syntax tree define it. */
  predicate IsJump(s: Statement) {
    match s
    case Block(_, labelled, statements) =>
      statements != [] && IsJump(statements[|statements| - 1]) && !labelled
    case ExpressionStatement(e) => e.Throw?
    case Continue(_) => true
    case Break(_) => true
    case Return(_) => true
    case If(_, t, e) => t != Empty && IsJump(t) && e != Empty && IsJump(e)
    case _ => false
  }

  // ----- execution -----

  datatype Completion = Normal | Breaking(target: nat) | Continuing(target: nat) | Returning | Throwing

  /** A completion together with the store it leaves; None while the fuel does not suffice. */
  datatype Outcome = Outcome(completion: Completion, store: Store)

  function Eval(e: Expression, store: Store): EvalResult {
    match e
    case Throw(operand) => (match operand(store) case Value(_, st) => Thrown(st) case Thrown(st) => Thrown(st))
    case Other(eval) => eval(store)
  }

  function Execute(fuel: nat, s: Statement, store: Store): Option<Outcome>
    decreases fuel, 0, s
  {
    if fuel == 0 then None
    else
      match s
      case Empty => Some(Outcome(Normal, store))
      case ExpressionStatement(e) =>
        (match Eval(e, store)
         case Value(_, st) => Some(Outcome(Normal, st))
         case Thrown(st) => Some(Outcome(Throwing, st)))
      case Block(id, _, statements) => Absorb(id, ExecuteList(fuel - 1, statements, store))
      case If(c, t, e) =>
        (match Eval(c, store)
         case Thrown(st) => Some(Outcome(Throwing, st))
         case Value(v, st) => Execute(fuel - 1, if v != 0 then t else e, st))
      case Continue(target) => Some(Outcome(Continuing(target), store))
      case Break(target) => Some(Outcome(Breaking(target), store))
      case Return(e) =>
        (match Eval(e, store)
         case Value(_, st) => Some(Outcome(Returning, st))
         case Thrown(st) => Some(Outcome(Throwing, st)))
      case With(e, body) =>
        (match Eval(e, store)
         case Thrown(st) => Some(Outcome(Throwing, st))
         case Value(_, st) => Execute(fuel - 1, body, st))
      case Switch(id, tag, cases) =>
        (match Eval(tag, store)
         case Thrown(st) => Some(Outcome(Throwing, st))
         case Value(v, st) =>
           (match Select(cases, 0, v, st)
            case Thrown(st') => Some(Outcome(Throwing, st'))
            case Value(start, st') => Absorb(id, ExecuteCases(fuel - 1, FromClause(cases, start), st'))))
      case While(id, c, body) =>
        (match Eval(c, store)
         case Thrown(st) => Some(Outcome(Throwing, st))
         case Value(v, st) => if v == 0 then Some(Outcome(Normal, st)) else Iterate(fuel - 1, id, body, Empty, s, st))
      case DoWhile(id, body, c) => Iterate(fuel - 1, id, body, Empty, While(id, c, body), store)
      case For(id, init, c, next, body) =>
        (match Execute(fuel - 1, init, store)
         case Some(Outcome(Normal, st)) =>
           (match Eval(c, st)
            case Thrown(st') => Some(Outcome(Throwing, st'))
            case Value(v, st') =>
              if v == 0 then Some(Outcome(Normal, st'))
              else Iterate(fuel - 1, id, body, next, For(id, Empty, c, next, body), st'))
         case o => o)
      case ForEach(id, subject, advance, body) =>
        Execute(fuel - 1, For(id, ExpressionStatement(subject), advance, Empty, body), store)
      case TryCatch(t, c) => Handle(fuel - 1, Execute(fuel - 1, t, store), c)
      case TryFinally(t, f) => Finish(fuel - 1, Execute(fuel - 1, t, store), f)
  }

  /** The catch block runs after a throw only. */
  function Handle(fuel: nat, o: Option<Outcome>, catchBlock: Statement): Option<Outcome>
    decreases fuel, 1
  {
    match o
    case Some(Outcome(Throwing, st)) => Execute(fuel, catchBlock, st)
    case _ => o
  }

  /** The finally block always runs, and its own completion counts unless it is normal. */
  function Finish(fuel: nat, o: Option<Outcome>, finallyBlock: Statement): Option<Outcome>
    decreases fuel, 1
  {
    match o
    case None => None
    case Some(first) =>
      match Execute(fuel, finallyBlock, first.store)
      case Some(Outcome(Normal, st)) => Some(Outcome(first.completion, st))
      case last => last
  }

  /** A break that targets the statement ends it normally. */
  function Absorb(id: nat, o: Option<Outcome>): Option<Outcome> {
    match o
    case Some(Outcome(Breaking(target), st)) => if target == id then Some(Outcome(Normal, st)) else o
    case _ => o
  }

  function ExecuteList(fuel: nat, statements: seq<Statement>, store: Store): Option<Outcome>
    decreases fuel, 1, |statements|
  {
    if statements == [] then Some(Outcome(Normal, store))
    else
      match Execute(fuel, statements[0], store)
      case Some(Outcome(Normal, st)) => ExecuteList(fuel, statements[1..], st)
      case o => o
  }

  /** The position of the default clause, or the number of clauses. */
  function DefaultClause(cases: seq<CaseClause>, i: nat): (k: nat)
    requires i <= |cases|
    ensures k <= |cases|
    decreases |cases| - i
  {
    if i == |cases| || cases[i].test == None then i else DefaultClause(cases, i + 1)
  }

  /** Where a switch on the value tag starts: at the first test from i on that evaluates to it, else at the
      default clause. Evaluation of the tests may throw and has effects. */
  function Select(cases: seq<CaseClause>, i: nat, tag: int, store: Store): EvalResult
    requires i <= |cases|
    decreases |cases| - i
  {
    if i == |cases| then Value(DefaultClause(cases, 0), store)
    else
      match cases[i].test
      case None => Select(cases, i + 1, tag, store)
      case Some(test) =>
        match Eval(test, store)
        case Thrown(st) => Thrown(st)
        case Value(v, st) => if v == tag then Value(i, st) else Select(cases, i + 1, tag, st)
  }

  function FromClause(cases: seq<CaseClause>, start: int): seq<CaseClause> {
    if 0 <= start <= |cases| then cases[start..] else []
  }

  /** Without a break each clause falls through to the next. */
  function ExecuteCases(fuel: nat, cases: seq<CaseClause>, store: Store): Option<Outcome>
    decreases fuel, 2, |cases|
  {
    if cases == [] then Some(Outcome(Normal, store))
    else
      match ExecuteList(fuel, cases[0].statements, store)
      case Some(Outcome(Normal, st)) => ExecuteCases(fuel, cases[1..], st)
      case o => o
  }

  /** One execution of the body of the loop with the given identity, then what comes between two rounds, and
      then the loop again. A continue to the loop ends the body only. */
  function Iterate(fuel: nat, id: nat, body: Statement, next: Statement, loop: Statement, store: Store): Option<Outcome>
    decreases fuel, 3
  {
    var o := Execute(fuel, body, store);
    if o == None then None
    else if Repeats(o.value.completion, id) then Again(fuel, Execute(fuel, next, o.value.store), loop)
    else Absorb(id, o)
  }

  /** The next round of the loop, unless what came before it did not complete normally. */
  function Again(fuel: nat, o: Option<Outcome>, loop: Statement): Option<Outcome>
    decreases fuel, 1
  {
    match o
    case Some(Outcome(Normal, st)) => if fuel == 0 then None else Execute(fuel - 1, loop, st)
    case _ => o
  }

  predicate Repeats(c: Completion, id: nat) {
    c == Normal || c == Continuing(id)
  }

  // ----- which breaks a statement contains -----

  /** A break to the target occurs in the statement. */
  predicate Breaks(s: Statement, target: nat) {
    match s
    case Break(t) => t == target
    case Block(_, _, statements) => exists i :: 0 <= i < |statements| && Breaks(statements[i], target)
    case If(_, t, e) => Breaks(t, target) || Breaks(e, target)
    case With(_, body) => Breaks(body, target)
    case Switch(_, _, cases) =>
      exists i, j :: 0 <= i < |cases| && 0 <= j < |cases[i].statements| && Breaks(cases[i].statements[j], target)
    case While(_, _, body) => Breaks(body, target)
    case DoWhile(_, body, _) => Breaks(body, target)
    case For(_, init, _, next, body) => Breaks(init, target) || Breaks(next, target) || Breaks(body, target)
    case ForEach(_, _, _, body) => Breaks(body, target)
    case TryCatch(t, c) => Breaks(t, target) || Breaks(c, target)
    case TryFinally(t, f) => Breaks(t, target) || Breaks(f, target)
    case _ => false
  }

  predicate ListBreaks(statements: seq<Statement>, target: nat) {
    exists i :: 0 <= i < |statements| && Breaks(statements[i], target)
  }

  /** The parser lets a break target a block only by a label. */
  predicate WellTargeted(s: Statement) {
    match s
    case Block(id, labelled, statements) =>
      && (labelled || !Breaks(s, id))
      && forall i :: 0 <= i < |statements| ==> WellTargeted(statements[i])
    case If(_, t, e) => WellTargeted(t) && WellTargeted(e)
    case _ => true
  }

  /** A statement that ends by a break contains that break. */
  lemma {:induction false} BreakOccurs(fuel: nat, s: Statement, store: Store, target: nat)
    requires Execute(fuel, s, store).Some? && Execute(fuel, s, store).value.completion == Breaking(target)
    ensures Breaks(s, target)
    decreases fuel, 1
  {
    match s
    case Block(id, labelled, statements) =>
      BreakOccursInList(fuel - 1, statements, store, target);
    case If(c, t, e) =>
      var Value(v, st) := Eval(c, store);
      BreakOccurs(fuel - 1, if v != 0 then t else e, st, target);
    case With(e, body) =>
      BreakOccurs(fuel - 1, body, Eval(e, store).store, target);
    case Switch(id, tag, cases) =>
      BreakOccursInSwitch(fuel, id, tag, cases, store, target);
      BreaksInCases(id, tag, cases, target);
    case While(id, c, body) =>
      BreakOccursInLoop(fuel - 1, id, body, Empty, s, Eval(c, store).store, target);
      NoBreaksInSimple(c, target);
    case DoWhile(id, body, c) =>
      BreakOccursInLoop(fuel - 1, id, body, Empty, While(id, c, body), store, target);
      NoBreaksInSimple(c, target);
    case For(id, init, c, next, body) =>
      BreakOccursInFor(fuel, id, init, c, next, body, store, target);
    case ForEach(id, subject, advance, body) =>
      BreakOccurs(fuel - 1, For(id, ExpressionStatement(subject), advance, Empty, body), store, target);
      NoBreaksInSimple(subject, target);
    case TryCatch(t, c) =>
      BreakOccursInHandler(fuel - 1, t, c, store, target);
    case TryFinally(t, f) =>
      BreakOccursInFinish(fuel - 1, t, f, store, target);
    case _ =>
  }

  lemma {:induction false} NoBreaksInSimple(e: Expression, target: nat)
    ensures !Breaks(Empty, target) && !Breaks(ExpressionStatement(e), target)
  {
  }

  lemma {:induction false} BreaksInCases(id: nat, tag: Expression, cases: seq<CaseClause>, target: nat)
    requires CasesBreak(cases, target)
    ensures Breaks(Switch(id, tag, cases), target)
  {
    var i, j :| 0 <= i < |cases| && 0 <= j < |cases[i].statements| && Breaks(cases[i].statements[j], target);
    assert Breaks(cases[i].statements[j], target);
  }

  lemma {:induction false} BreakOccursInSwitch(fuel: nat, id: nat, tag: Expression, cases: seq<CaseClause>,
                                               store: Store, target: nat)
    requires var o := Execute(fuel, Switch(id, tag, cases), store); o.Some? && o.value.completion == Breaking(target)
    ensures CasesBreak(cases, target)
    decreases fuel, 0
  {
    var Value(v, st) := Eval(tag, store);
    var Value(start, st') := Select(cases, 0, v, st);
    BreakOccursInCases(fuel - 1, FromClause(cases, start), st', target);
    BreaksFromClause(cases, start, target);
  }

  lemma {:induction false} BreakOccursInFor(fuel: nat, id: nat, init: Statement, c: Expression, next: Statement,
                                            body: Statement, store: Store, target: nat)
    requires var o := Execute(fuel, For(id, init, c, next, body), store); o.Some? && o.value.completion == Breaking(target)
    ensures Breaks(init, target) || Breaks(next, target) || Breaks(body, target)
    decreases fuel, 0
  {
    var o := Execute(fuel - 1, init, store);
    if o.value.completion == Normal {
      BreakOccursInLoop(fuel - 1, id, body, next, For(id, Empty, c, next, body), Eval(c, o.value.store).store, target);
    } else {
      BreakOccurs(fuel - 1, init, store, target);
    }
  }

  lemma {:induction false} BreakOccursInHandler(fuel: nat, t: Statement, c: Statement, store: Store, target: nat)
    requires var o := Handle(fuel, Execute(fuel, t, store), c); o.Some? && o.value.completion == Breaking(target)
    ensures Breaks(t, target) || Breaks(c, target)
    decreases fuel, 2
  {
    var o := Execute(fuel, t, store);
    if o.value.completion == Throwing {
      BreakOccurs(fuel, c, o.value.store, target);
    } else {
      BreakOccurs(fuel, t, store, target);
    }
  }

  lemma {:induction false} BreakOccursInFinish(fuel: nat, t: Statement, f: Statement, store: Store, target: nat)
    requires var o := Finish(fuel, Execute(fuel, t, store), f); o.Some? && o.value.completion == Breaking(target)
    ensures Breaks(t, target) || Breaks(f, target)
    decreases fuel, 2
  {
    var first := Execute(fuel, t, store).value;
    var last := Execute(fuel, f, first.store).value;
    if last.completion == Normal {
      BreakOccurs(fuel, t, store, target);
    } else {
      BreakOccurs(fuel, f, first.store, target);
    }
  }

  lemma {:induction false} BreakOccursInList(fuel: nat, statements: seq<Statement>, store: Store, target: nat)
    requires ExecuteList(fuel, statements, store).Some?
    requires ExecuteList(fuel, statements, store).value.completion == Breaking(target)
    ensures ListBreaks(statements, target)
    decreases fuel, 2, |statements|
  {
    var o := Execute(fuel, statements[0], store);
    if o.value.completion == Normal {
      BreakOccursInList(fuel, statements[1..], o.value.store, target);
      var i :| 0 <= i < |statements[1..]| && Breaks(statements[1..][i], target);
      assert Breaks(statements[i + 1], target);
    } else {
      BreakOccurs(fuel, statements[0], store, target);
    }
  }

  predicate CasesBreak(cases: seq<CaseClause>, target: nat) {
    exists i, j :: 0 <= i < |cases| && 0 <= j < |cases[i].statements| && Breaks(cases[i].statements[j], target)
  }

  lemma {:induction false} BreaksFromClause(cases: seq<CaseClause>, start: int, target: nat)
    requires CasesBreak(FromClause(cases, start), target)
    ensures CasesBreak(cases, target)
  {
    var later := FromClause(cases, start);
    var i, j :| 0 <= i < |later| && 0 <= j < |later[i].statements| && Breaks(later[i].statements[j], target);
    assert later[i] == cases[start + i];
    assert Breaks(cases[start + i].statements[j], target);
  }

  lemma {:induction false} BreakOccursInCases(fuel: nat, cases: seq<CaseClause>, store: Store, target: nat)
    requires ExecuteCases(fuel, cases, store).Some?
    requires ExecuteCases(fuel, cases, store).value.completion == Breaking(target)
    ensures CasesBreak(cases, target)
    decreases fuel, 3, |cases|
  {
    var o := ExecuteList(fuel, cases[0].statements, store);
    if o.value.completion == Normal {
      BreakOccursInCases(fuel, cases[1..], o.value.store, target);
      assert FromClause(cases, 1) == cases[1..];
      BreaksFromClause(cases, 1, target);
    } else {
      BreakOccursInList(fuel, cases[0].statements, store, target);
    }
  }

  /** What a loop comes back to is a loop with the same body. */
  ghost predicate Loops(loop: Statement, body: Statement, next: Statement) {
    || (loop.While? && loop.body == body && next == Empty)
    || (loop.For? && loop.body == body && loop.next == next && loop.init == Empty)
  }

  lemma {:induction false} BreaksInLoop(loop: Statement, body: Statement, next: Statement, target: nat)
    requires Loops(loop, body, next)
    ensures Breaks(loop, target) ==> Breaks(body, target) || Breaks(next, target)
  {
    assert !Breaks(Empty, target);
  }

  lemma {:induction false} BreakOccursInLoop(fuel: nat, id: nat, body: Statement, next: Statement, loop: Statement,
                                             store: Store, target: nat)
    requires Loops(loop, body, next)
    requires Iterate(fuel, id, body, next, loop, store).Some?
    requires Iterate(fuel, id, body, next, loop, store).value.completion == Breaking(target)
    ensures Breaks(body, target) || Breaks(next, target)
    decreases fuel, 4
  {
    var o := Execute(fuel, body, store);
    if Repeats(o.value.completion, id) {
      BreakOccursAgain(fuel, next, loop, o.value.store, target);
      BreaksInLoop(loop, body, next, target);
    } else {
      BreakOccurs(fuel, body, store, target);
    }
  }

  lemma {:induction false} BreakOccursAgain(fuel: nat, next: Statement, loop: Statement, store: Store, target: nat)
    requires var o := Again(fuel, Execute(fuel, next, store), loop); o.Some? && o.value.completion == Breaking(target)
    ensures Breaks(next, target) || Breaks(loop, target)
    decreases fuel, 3
  {
    var o := Execute(fuel, next, store);
    if o.value.completion == Normal {
      BreakOccurs(fuel - 1, loop, o.value.store, target);
    } else {
      BreakOccurs(fuel, next, store, target);
    }
  }

  // ----- soundness -----

  /** A list of statements whose last one never completes normally does not either. */
  lemma {:induction false} JumpAtEnd(fuel: nat, statements: seq<Statement>, store: Store)
    requires statements != [] && IsJump(statements[|statements| - 1]) && WellTargeted(statements[|statements| - 1])
    requires ExecuteList(fuel, statements, store).Some?
    ensures ExecuteList(fuel, statements, store).value.completion != Normal
    decreases fuel, 1, |statements|
  {
    var o := Execute(fuel, statements[0], store);
    if |statements| == 1 {
      IsJumpIsSound(fuel, statements[0], store);
    } else if o.value.completion == Normal {
      JumpAtEnd(fuel, statements[1..], o.value.store);
    }
  }

  /** No run of a statement for which IsJump holds completes normally. */
  lemma {:induction false} IsJumpIsSound(fuel: nat, s: Statement, store: Store)
    requires IsJump(s) && WellTargeted(s)
    requires Execute(fuel, s, store).Some?
    ensures Execute(fuel, s, store).value.completion != Normal
    decreases fuel, 0, s
  {
    match s
    case Block(id, labelled, statements) =>
      JumpAtEnd(fuel - 1, statements, store);
      var o := ExecuteList(fuel - 1, statements, store);
      if o.value.completion == Breaking(id) {
        BreakOccursInList(fuel - 1, statements, store, id);
      }
    case If(c, t, e) =>
      if Eval(c, store).Value? {
        var Value(v, st) := Eval(c, store);
        IsJumpIsSound(fuel - 1, if v != 0 then t else e, st);
      }
    case _ =>
  }

  /** The test for labels is needed: a labelled block that ends in a break to itself completes normally. */
  lemma {:induction false} LabelsMatter(id: nat, store: Store)
    ensures var s := Block(id, true, [Break(id)]);
            && WellTargeted(s) && IsJump(s.statements[0]) && !IsJump(s)
            && Execute(2, s, store) == Some(Outcome(Normal, store))
  {
    var statements := [Break(id)];
    assert Execute(1, Break(id), store) == Some(Outcome(Breaking(id), store));
    assert ExecuteList(1, statements, store) == Some(Outcome(Breaking(id), store));
  }

  /** IsJump is only an approximation: dead code behind a return hides it. */
  lemma {:induction false} DeadCodeHidesJump(id: nat, e: Expression, fuel: nat, store: Store)
    ensures var s := Block(id, false, [Return(e), Empty]);
            && WellTargeted(s) && !IsJump(s)
            && (Execute(fuel, s, store).Some? ==> Execute(fuel, s, store).value.completion != Normal)
  {
    var statements := [Return(e), Empty];
    assert forall i :: 0 <= i < |statements| ==> !Breaks(statements[i], id);
    if fuel > 0 {
      var o := Execute(fuel - 1, statements[0], store);
      assert o.Some? ==> o.value.completion != Normal;
      assert ExecuteList(fuel - 1, statements, store) == o;
    }
  }

  // ----- completeness on a fragment -----

  /** What each statement that is a jump by itself does: it leaves by its own completion, or throws. */
  lemma {:induction false} JumpsLeave(store: Store, target: nat, e: Expression)
    ensures IsJump(Continue(target)) && Execute(1, Continue(target), store) == Some(Outcome(Continuing(target), store))
    ensures IsJump(Break(target)) && Execute(1, Break(target), store) == Some(Outcome(Breaking(target), store))
    ensures IsJump(Return(e)) && Execute(1, Return(e), store).Some?
            && Execute(1, Return(e), store).value.completion == if Eval(e, store).Value? then Returning else Throwing
    ensures e.Throw? ==> IsJump(ExpressionStatement(e)) && Execute(1, ExpressionStatement(e), store).Some?
                         && Execute(1, ExpressionStatement(e), store).value.completion == Throwing
  {
  }

  ghost predicate NeverThrows(e: Expression) {
    e.Other? && forall store :: e.eval(store).Value?
  }

  /** A statement that always completes normally. */
  ghost predicate Simple(s: Statement) {
    s == Empty || (s.ExpressionStatement? && NeverThrows(s.expression))
  }

  /** Statements without loops and labels, whose conditions do not throw, and whose blocks hold nothing but
      simple statements before the last one. */
  ghost predicate InFragment(s: Statement) {
    match s
    case Empty => true
    case ExpressionStatement(e) => e.Throw? || NeverThrows(e)
    case Continue(_) => true
    case Break(_) => true
    case Return(_) => true
    case If(c, t, e) => NeverThrows(c) && InFragment(t) && InFragment(e)
    case Block(_, labelled, statements) =>
      && !labelled
      && (forall i :: 0 <= i < |statements| - 1 ==> Simple(statements[i]))
      && (forall i :: 0 <= i < |statements| ==> InFragment(statements[i]))
    case _ => false
  }

  /** The same statement up to the conditions of its ifs, none of which throws. */
  ghost predicate SameShape(s: Statement, s': Statement) {
    match s
    case If(_, t, e) =>
      s'.If? && NeverThrows(s'.condition) && SameShape(t, s'.thenStatement) && SameShape(e, s'.elseStatement)
    case Block(id, labelled, statements) =>
      && s'.Block? && s'.id == id && s'.labelled == labelled && |s'.statements| == |statements|
      && forall i :: 0 <= i < |statements| ==> SameShape(statements[i], s'.statements[i])
    case _ => s' == s
  }

  lemma {:induction false} ShapeKeepsBreaks(s: Statement, s': Statement, target: nat)
    requires SameShape(s, s')
    ensures Breaks(s, target) <==> Breaks(s', target)
  {
    match s
    case If(_, t, e) =>
      ShapeKeepsBreaks(t, s'.thenStatement, target);
      ShapeKeepsBreaks(e, s'.elseStatement, target);
    case Block(id, labelled, statements) =>
      forall i | 0 <= i < |statements|
        ensures Breaks(statements[i], target) <==> Breaks(s'.statements[i], target)
      {
        ShapeKeepsBreaks(statements[i], s'.statements[i], target);
      }
    case _ =>
  }

  /** Conditions do not matter to IsJump, nor to the targets. */
  lemma {:induction false} ShapeKeepsJump(s: Statement, s': Statement)
    requires SameShape(s, s')
    ensures IsJump(s) <==> IsJump(s')
    ensures WellTargeted(s) ==> WellTargeted(s')
  {
    match s
    case If(_, t, e) =>
      ShapeKeepsJump(t, s'.thenStatement);
      ShapeKeepsJump(e, s'.elseStatement);
    case Block(id, labelled, statements) =>
      ShapeKeepsBreaks(s, s', id);
      forall i | 0 <= i < |statements|
        ensures IsJump(statements[i]) <==> IsJump(s'.statements[i])
        ensures WellTargeted(statements[i]) ==> WellTargeted(s'.statements[i])
      {
        ShapeKeepsJump(statements[i], s'.statements[i]);
      }
    case _ =>
  }

  /** From every store the statement completes normally with that fuel. */
  ghost predicate FallsThrough(fuel: nat, s: Statement) {
    forall store :: var o := Execute(fuel, s, store); o.Some? && o.value.completion == Normal
  }

  lemma {:induction false} SimpleFallsThrough(fuel: nat, s: Statement)
    requires fuel > 0 && Simple(s)
    ensures FallsThrough(fuel, s)
  {
  }

  lemma {:induction false} ListFallsThrough(fuel: nat, statements: seq<Statement>, store: Store)
    requires forall i :: 0 <= i < |statements| ==> FallsThrough(fuel, statements[i])
    ensures var o := ExecuteList(fuel, statements, store); o.Some? && o.value.completion == Normal
    decreases |statements|
  {
    if statements != [] {
      assert FallsThrough(fuel, statements[0]);
      ListFallsThrough(fuel, statements[1..], Execute(fuel, statements[0], store).value.store);
    }
  }

  lemma {:induction false} BlockFallsThrough(fuel: nat, block: Statement)
    requires fuel > 0 && block.Block? && forall i :: 0 <= i < |block.statements| ==> FallsThrough(fuel - 1, block.statements[i])
    ensures FallsThrough(fuel, block)
  {
    forall store
      ensures var o := Execute(fuel, block, store); o.Some? && o.value.completion == Normal
    {
      ListFallsThrough(fuel - 1, block.statements, store);
    }
  }

  /** A condition with one value. */
  function Constant(v: int): Expression {
    Other((store: Store) => Value(v, store))
  }

  lemma {:induction false} IfFallsThrough(fuel: nat, v: int, s: Statement)
    requires fuel > 0 && s.If? && s.condition == Constant(v)
    requires FallsThrough(fuel - 1, if v != 0 then s.thenStatement else s.elseStatement)
    ensures NeverThrows(s.condition) && FallsThrough(fuel, s)
  {
    forall store
      ensures var o := Execute(fuel, s, store); o.Some? && o.value.completion == Normal
    {
      assert Eval(s.condition, store) == Value(v, store);
    }
  }

  lemma {:induction false} SameShapeSelf(s: Statement)
    requires InFragment(s)
    ensures SameShape(s, s)
  {
    match s
    case If(_, t, e) =>
      SameShapeSelf(t);
      SameShapeSelf(e);
    case Block(_, _, statements) =>
      forall i | 0 <= i < |statements|
        ensures SameShape(statements[i], statements[i])
      {
        SameShapeSelf(statements[i]);
      }
    case _ =>
  }

  /** A statement that is no jump completes normally under some of its conditions. */
  lemma {:induction false} Completes(s: Statement) returns (s': Statement, fuel: nat)
    requires InFragment(s) && !IsJump(s)
    ensures SameShape(s, s') && fuel > 0 && FallsThrough(fuel, s')
  {
    s', fuel := s, 1;
    match s
    case Empty => SimpleFallsThrough(1, s);
    case ExpressionStatement(_) => SimpleFallsThrough(1, s);
    case If(_, t, e) =>
      SameShapeSelf(t);
      SameShapeSelf(e);
      if IsJump(t) {
        var e', n := Completes(e);
        s', fuel := If(Constant(0), t, e'), n + 1;
        IfFallsThrough(fuel, 0, s');
      } else {
        var t', n := Completes(t);
        s', fuel := If(Constant(1), t', e), n + 1;
        IfFallsThrough(fuel, 1, s');
      }
    case Block(id, labelled, statements) =>
      s', fuel := CompletesBlock(id, statements);
    case _ =>
  }

  lemma {:induction false} CompletesBlock(id: nat, statements: seq<Statement>) returns (s': Statement, fuel: nat)
    requires InFragment(Block(id, false, statements)) && !IsJump(Block(id, false, statements))
    ensures SameShape(Block(id, false, statements), s') && fuel > 0 && FallsThrough(fuel, s')
    decreases statements
  {
    if statements == [] {
      s', fuel := Block(id, false, []), 1;
      BlockFallsThrough(fuel, s');
    } else {
      var k := |statements| - 1;
      var last, n := Completes(statements[k]);
      var changed := statements[k := last];
      forall i | 0 <= i < |statements|
        ensures SameShape(statements[i], changed[i]) && FallsThrough(n, changed[i])
      {
        if i < k {
          SameShapeSelf(statements[i]);
          SimpleFallsThrough(n, statements[i]);
        }
      }
      s', fuel := Block(id, false, changed), n + 1;
      BlockFallsThrough(fuel, s');
    }
  }

  /** The statement completes normally under no conditions of its ifs, from no store and in no number of steps. */
  ghost predicate NeverFallsThrough(s: Statement) {
    forall s', fuel: nat, store | SameShape(s, s') && Execute(fuel, s', store).Some? ::
      Execute(fuel, s', store).value.completion != Normal
  }

  lemma {:induction false} OneRunIsEnough(s: Statement, s': Statement, fuel: nat, store: Store)
    requires SameShape(s, s') && FallsThrough(fuel, s')
    ensures !NeverFallsThrough(s)
  {
    var o := Execute(fuel, s', store);
    assert o.Some? && o.value.completion == Normal;
  }

  /** On the fragment IsJump is exact. */
  lemma {:induction false} IsJumpIsExact(s: Statement)
    requires InFragment(s) && WellTargeted(s)
    ensures IsJump(s) <==> NeverFallsThrough(s)
  {
    if IsJump(s) {
      forall s', fuel: nat, store | SameShape(s, s') && Execute(fuel, s', store).Some?
        ensures Execute(fuel, s', store).value.completion != Normal
      {
        ShapeKeepsJump(s, s');
        IsJumpIsSound(fuel, s', store);
      }
    } else {
      var s', fuel := Completes(s);
      OneRunIsEnough(s, s', fuel, map[]);
    }
  }

  // ----- fuel only bounds the length of a run -----

  /** A run that ends keeps its outcome when it is given more fuel. */
  lemma {:induction false} MoreFuel(fuel: nat, s: Statement, store: Store)
    requires Execute(fuel, s, store).Some?
    ensures Execute(fuel + 1, s, store) == Execute(fuel, s, store)
    decreases fuel, 1
  {
    match s
    case Block(id, labelled, statements) =>
      MoreFuelForList(fuel - 1, statements, store);
    case If(_, _, _) => MoreFuelForBranch(fuel, s, store);
    case With(_, _) => MoreFuelForBranch(fuel, s, store);
    case Switch(id, tag, cases) => MoreFuelForSwitch(fuel, s, store);
    case While(_, _, _) => MoreFuelForWhile(fuel, s, store);
    case DoWhile(_, _, _) => MoreFuelForWhile(fuel, s, store);
    case For(id, init, c, next, body) => MoreFuelForFor(fuel, s, store);
    case ForEach(id, subject, advance, body) =>
      MoreFuel(fuel - 1, For(id, ExpressionStatement(subject), advance, Empty, body), store);
    case TryCatch(t, c) =>
      MoreFuel(fuel - 1, t, store);
      MoreFuelForHandler(fuel - 1, Execute(fuel - 1, t, store), c);
    case TryFinally(t, f) =>
      MoreFuel(fuel - 1, t, store);
      MoreFuelForFinish(fuel - 1, Execute(fuel - 1, t, store), f);
    case _ =>
  }

  lemma {:induction false} MoreFuelForBranch(fuel: nat, s: Statement, store: Store)
    requires (s.If? || s.With?) && Execute(fuel, s, store).Some?
    ensures Execute(fuel + 1, s, store) == Execute(fuel, s, store)
    decreases fuel, 0
  {
    var e := if s.If? then s.condition else s.scope;
    if Eval(e, store).Value? {
      var Value(v, st) := Eval(e, store);
      MoreFuel(fuel - 1, if s.With? then s.body else if v != 0 then s.thenStatement else s.elseStatement, st);
    }
  }

  lemma {:induction false} MoreFuelForWhile(fuel: nat, s: Statement, store: Store)
    requires (s.While? || s.DoWhile?) && Execute(fuel, s, store).Some?
    ensures Execute(fuel + 1, s, store) == Execute(fuel, s, store)
    decreases fuel, 0
  {
    if s.DoWhile? {
      MoreFuelForLoop(fuel - 1, s.id, s.body, Empty, While(s.id, s.condition, s.body), store);
    } else if Eval(s.condition, store).Value? && Eval(s.condition, store).v != 0 {
      MoreFuelForLoop(fuel - 1, s.id, s.body, Empty, s, Eval(s.condition, store).store);
    }
  }

  lemma {:induction false} MoreFuelForSwitch(fuel: nat, s: Statement, store: Store)
    requires s.Switch? && Execute(fuel, s, store).Some?
    ensures Execute(fuel + 1, s, store) == Execute(fuel, s, store)
    decreases fuel, 0
  {
    if Eval(s.tag, store).Value? {
      var Value(v, st) := Eval(s.tag, store);
      var selected := Select(s.cases, 0, v, st);
      if selected.Value? {
        MoreFuelForCases(fuel - 1, FromClause(s.cases, selected.v), selected.store);
      }
    }
  }

  lemma {:induction false} MoreFuelForFor(fuel: nat, s: Statement, store: Store)
    requires s.For? && Execute(fuel, s, store).Some?
    ensures Execute(fuel + 1, s, store) == Execute(fuel, s, store)
    decreases fuel, 0
  {
    var For(id, init, c, next, body) := s;
    MoreFuel(fuel - 1, init, store);
    var o := Execute(fuel - 1, init, store);
    if o.value.completion == Normal && Eval(c, o.value.store).Value? && Eval(c, o.value.store).v != 0 {
      MoreFuelForLoop(fuel - 1, id, body, next, For(id, Empty, c, next, body), Eval(c, o.value.store).store);
    }
  }

  lemma {:induction false} MoreFuelForHandler(fuel: nat, o: Option<Outcome>, catchBlock: Statement)
    requires Handle(fuel, o, catchBlock).Some?
    ensures Handle(fuel + 1, o, catchBlock) == Handle(fuel, o, catchBlock)
    decreases fuel, 2
  {
    if o.value.completion == Throwing {
      MoreFuel(fuel, catchBlock, o.value.store);
    }
  }

  lemma {:induction false} MoreFuelForFinish(fuel: nat, o: Option<Outcome>, finallyBlock: Statement)
    requires Finish(fuel, o, finallyBlock).Some?
    ensures Finish(fuel + 1, o, finallyBlock) == Finish(fuel, o, finallyBlock)
    decreases fuel, 2
  {
    MoreFuel(fuel, finallyBlock, o.value.store);
  }

  lemma {:induction false} MoreFuelForList(fuel: nat, statements: seq<Statement>, store: Store)
    requires ExecuteList(fuel, statements, store).Some?
    ensures ExecuteList(fuel + 1, statements, store) == ExecuteList(fuel, statements, store)
    decreases fuel, 2, |statements|
  {
    if statements != [] {
      MoreFuel(fuel, statements[0], store);
      var o := Execute(fuel, statements[0], store);
      if o.value.completion == Normal {
        MoreFuelForList(fuel, statements[1..], o.value.store);
      }
    }
  }

  lemma {:induction false} MoreFuelForCases(fuel: nat, cases: seq<CaseClause>, store: Store)
    requires ExecuteCases(fuel, cases, store).Some?
    ensures ExecuteCases(fuel + 1, cases, store) == ExecuteCases(fuel, cases, store)
    decreases fuel, 3, |cases|
  {
    if cases != [] {
      MoreFuelForList(fuel, cases[0].statements, store);
      var o := ExecuteList(fuel, cases[0].statements, store);
      if o.value.completion == Normal {
        MoreFuelForCases(fuel, cases[1..], o.value.store);
      }
    }
  }

  lemma {:induction false} IterateRepeats(fuel: nat, id: nat, body: Statement, next: Statement, loop: Statement,
                                          store: Store, o: Option<Outcome>)
    requires o == Execute(fuel, body, store) && o.Some?
    ensures Iterate(fuel, id, body, next, loop, store) ==
            if Repeats(o.value.completion, id) then Again(fuel, Execute(fuel, next, o.value.store), loop) else Absorb(id, o)
  {
  }

  lemma {:induction false} MoreFuelForLoop(fuel: nat, id: nat, body: Statement, next: Statement, loop: Statement, store: Store)
    requires Iterate(fuel, id, body, next, loop, store).Some?
    ensures Iterate(fuel + 1, id, body, next, loop, store) == Iterate(fuel, id, body, next, loop, store)
    decreases fuel, 4
  {
    MoreFuel(fuel, body, store);
    var o := Execute(fuel, body, store);
    IterateRepeats(fuel, id, body, next, loop, store, o);
    IterateRepeats(fuel + 1, id, body, next, loop, store, o);
    if Repeats(o.value.completion, id) {
      MoreFuel(fuel, next, o.value.store);
      MoreFuelAgain(fuel, Execute(fuel, next, o.value.store), loop);
    }
  }

  lemma {:induction false} MoreFuelAgain(fuel: nat, o: Option<Outcome>, loop: Statement)
    requires Again(fuel, o, loop).Some?
    ensures Again(fuel + 1, o, loop) == Again(fuel, o, loop)
    decreases fuel, 3
  {
    if o.value.completion == Normal {
      MoreFuel(fuel - 1, loop, o.value.store);
    }
  }
}
