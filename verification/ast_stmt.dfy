/** The statement walk (`Stmt::Emit`). No statement creates a table or moves
    the active cursor: a block's variables land in whichever table is active,
    which inside a function is the function's own table. */
module Statements {
  import opened Base
  import opened SymbolTable
  import opened Ast
  import opened Emission

  /** How many `Location`s a statement's walk asks the code generator for:
      one per variable of every block it reaches. A loop's body is never
      reached. */
  function StmtIssues(s: Stmt): nat
    decreases s
  {
    match s
    case Block(vs, ss) => |vs| + AllStmtIssues(ss)
    case While(_, _) => 0
    case For(_, _, _, _) => 0
    case If(_, tb, eb) => StmtIssues(tb) + (match eb case None => 0 case Some(b) => StmtIssues(b))
    case Return(_) => 0
    case Print(_) => 0
  }

  function AllStmtIssues(ss: seq<Stmt>): nat
    decreases ss
  {
    if |ss| == 0 then 0 else StmtIssues(ss[0]) + AllStmtIssues(ss[1..])
  }

  /** The `Location`s a statement's walk appends to the active table, in
      order, when the code generator's next serial is `n`: the variables of
      every block it reaches. */
  function DeclaredLabels(s: Stmt, n: nat): seq<Location>
    decreases s
  {
    match s
    case Block(vs, ss) => VarLabels(vs, n) + AllDeclaredLabels(ss, n + |vs|)
    case While(_, _) => []
    case For(_, _, _, _) => []
    case If(_, tb, eb) =>
      DeclaredLabels(tb, n) + (match eb case None => [] case Some(b) => DeclaredLabels(b, n + StmtIssues(tb)))
    case Return(_) => []
    case Print(_) => []
  }

  function AllDeclaredLabels(ss: seq<Stmt>, n: nat): seq<Location>
    decreases ss
  {
    if |ss| == 0 then [] else DeclaredLabels(ss[0], n) + AllDeclaredLabels(ss[1..], n + StmtIssues(ss[0]))
  }

  /** Every `Location` a statement's walk asks for lands in the active table,
      in the order handed out: block variables get consecutive serials. */
  lemma {:induction false} DeclaredLabelsConsecutive(s: Stmt, n: nat)
    ensures |DeclaredLabels(s, n)| == StmtIssues(s) && Consecutive(DeclaredLabels(s, n), n)
    decreases s, 0
  {
    match s
    case Block(vs, ss) =>
      VarLabelsAt(vs, n);
      AllDeclaredLabelsConsecutive(ss, n + |vs|);
      ConsecutiveConcat(VarLabels(vs, n), AllDeclaredLabels(ss, n + |vs|), n);
    case While(_, _) =>
    case For(_, _, _, _) =>
    case If(_, tb, eb) =>
      DeclaredLabelsConsecutive(tb, n);
      if eb.None? {
        assert DeclaredLabels(s, n) == DeclaredLabels(tb, n) + [];
      } else {
        DeclaredLabelsConsecutive(eb.value, n + StmtIssues(tb));
        ConsecutiveConcat(DeclaredLabels(tb, n), DeclaredLabels(eb.value, n + StmtIssues(tb)), n);
      }
    case Return(_) =>
    case Print(_) =>
  }

  lemma {:induction false} AllDeclaredLabelsConsecutive(ss: seq<Stmt>, n: nat)
    ensures |AllDeclaredLabels(ss, n)| == AllStmtIssues(ss) && Consecutive(AllDeclaredLabels(ss, n), n)
    decreases ss, 1
  {
    if |ss| > 0 {
      DeclaredLabelsConsecutive(ss[0], n);
      AllDeclaredLabelsConsecutive(ss[1..], n + StmtIssues(ss[0]));
      ConsecutiveConcat(DeclaredLabels(ss[0], n), AllDeclaredLabels(ss[1..], n + StmtIssues(ss[0])), n);
    }
  }

  /** The expressions a statement's walk hands to their own `Emit`, in order:
      an `if`'s test before its branches, a `for`'s init and step but never
      its test, a `return`'s value, a `print`'s arguments. */
  function Visits(s: Stmt): seq<Expr>
    decreases s
  {
    match s
    case Block(_, ss) => AllVisits(ss)
    case While(_, _) => []
    case For(i, _, st, _) => [i, st]
    case If(t, tb, eb) =>
      [t] + Visits(tb) + (match eb case None => [] case Some(b) => Visits(b))
    case Return(x) => [x]
    case Print(xs) => xs
  }

  function AllVisits(ss: seq<Stmt>): seq<Expr>
    decreases ss
  {
    if |ss| == 0 then [] else Visits(ss[0]) + AllVisits(ss[1..])
  }

  /** Whether a statement's walk returns normally: every `if` it reaches has
      an else branch, and it reaches no block variable while no table is
      active (`hasActive` says whether one is). */
  predicate StmtSafe(s: Stmt, hasActive: bool)
    decreases s
  {
    match s
    case Block(vs, ss) => (vs == [] || hasActive) && AllStmtSafe(ss, hasActive)
    case While(_, _) => true
    case For(_, _, _, _) => true
    case If(_, tb, eb) => StmtSafe(tb, hasActive) && eb.Some? && StmtSafe(eb.value, hasActive)
    case Return(_) => true
    case Print(_) => true
  }

  predicate AllStmtSafe(ss: seq<Stmt>, hasActive: bool)
    decreases ss
  {
    |ss| == 0 || (StmtSafe(ss[0], hasActive) && AllStmtSafe(ss[1..], hasActive))
  }

  /** `Stmt::Emit`. A loop walks nothing of its own (`LoopStmt::Emit`), and a
      `for` then walks its init and its step; `return` and `print` walk their
      expressions. The walk returns normally exactly when the statement is
      safe, and then it has appended the statement's declared `Location`s to
      the active table, changed no other table and left the active table
      where it was; expressions ask the code generator for no `Location`. */
  function EmitStmt(w: Walk, s: Stmt): (r: Result<Walk>)
    requires Valid(w.env)
    ensures r.Ok? <==> StmtSafe(s, w.env.active.Some?)
    ensures r.Ok? ==> Valid(r.value.env) && Grows(w.env, r.value.env, w.env.active, DeclaredLabels(s, w.issued), 0)
    ensures r.Ok? ==> r.value.visited == w.visited + Visits(s) && r.value.issued == w.issued + StmtIssues(s)
    decreases s, 1
  {
    match s
    case Block(_, _) => EmitBlock(w, s)
    case While(_, _) => Ok(w)
    case For(i, _, st, _) => Ok(EmitExpr(EmitExpr(w, i), st))
    case If(_, _, _) => EmitIf(w, s)
    case Return(x) => Ok(EmitExpr(w, x))
    case Print(xs) => Ok(EmitExprs(w, xs))
  }

  /** `StmtBlock::Emit`: the block's variables, then its statements. */
  function EmitBlock(w: Walk, s: Stmt): (r: Result<Walk>)
    requires Valid(w.env) && s.Block?
    ensures r.Ok? <==> StmtSafe(s, w.env.active.Some?)
    ensures r.Ok? ==> Valid(r.value.env) && Grows(w.env, r.value.env, w.env.active, DeclaredLabels(s, w.issued), 0)
    ensures r.Ok? ==> r.value.visited == w.visited + Visits(s) && r.value.issued == w.issued + StmtIssues(s)
    decreases s, 0
  {
    match EmitVars(w, s.decls)
    case Crash(f) => Crash(f)
    case Ok(w1) =>
      var r := EmitStmts(w1, s.stmts);
      if r.Ok? then
        GrowsTrans(w.env, w1.env, r.value.env, w.env.active, VarLabels(s.decls, w.issued), AllDeclaredLabels(s.stmts, w1.issued), 0, 0);
        r
      else r
  }

  /** `IfStmt::Emit`: `ConditionalStmt::Emit` (the test, then the then
      branch), then the else branch, which crashes when there is none. */
  function EmitIf(w: Walk, s: Stmt): (r: Result<Walk>)
    requires Valid(w.env) && s.If?
    ensures r.Ok? <==> StmtSafe(s, w.env.active.Some?)
    ensures r.Ok? ==> Valid(r.value.env) && Grows(w.env, r.value.env, w.env.active, DeclaredLabels(s, w.issued), 0)
    ensures r.Ok? ==> r.value.visited == w.visited + Visits(s) && r.value.issued == w.issued + StmtIssues(s)
    decreases s, 0
  {
    var w1 := EmitExpr(w, s.test);
    match EmitStmt(w1, s.thenBody)
    case Crash(f) => Crash(f)
    case Ok(w2) =>
      match s.elseBody
      case None => Crash(MissingElseBody)
      case Some(b) =>
        var r := EmitStmt(w2, b);
        if r.Ok? then
          IfStep(w, w1, w2, r.value, s);
          r
        else r
  }

  lemma IfStep(w: Walk, w1: Walk, w2: Walk, w3: Walk, s: Stmt)
    requires s.If? && s.elseBody.Some?
    requires w1.env == w.env && w1.visited == w.visited + [s.test] && w1.issued == w.issued
    requires Grows(w1.env, w2.env, w1.env.active, DeclaredLabels(s.thenBody, w1.issued), 0)
    requires w2.visited == w1.visited + Visits(s.thenBody) && w2.issued == w1.issued + StmtIssues(s.thenBody)
    requires Grows(w2.env, w3.env, w2.env.active, DeclaredLabels(s.elseBody.value, w2.issued), 0)
    requires w3.visited == w2.visited + Visits(s.elseBody.value) && w3.issued == w2.issued + StmtIssues(s.elseBody.value)
    ensures Grows(w.env, w3.env, w.env.active, DeclaredLabels(s, w.issued), 0)
    ensures w3.visited == w.visited + Visits(s) && w3.issued == w.issued + StmtIssues(s)
  {
    GrowsTrans(w.env, w2.env, w3.env, w.env.active, DeclaredLabels(s.thenBody, w.issued),
               DeclaredLabels(s.elseBody.value, w2.issued), 0, 0);
    assert w3.visited == w.visited + ([s.test] + Visits(s.thenBody) + Visits(s.elseBody.value));
  }

  /** `List::EmitForAll` over statements, in list order. */
  function EmitStmts(w: Walk, ss: seq<Stmt>): (r: Result<Walk>)
    requires Valid(w.env)
    ensures r.Ok? <==> AllStmtSafe(ss, w.env.active.Some?)
    ensures r.Ok? ==> Valid(r.value.env) && Grows(w.env, r.value.env, w.env.active, AllDeclaredLabels(ss, w.issued), 0)
    ensures r.Ok? ==> r.value.visited == w.visited + AllVisits(ss) && r.value.issued == w.issued + AllStmtIssues(ss)
    decreases ss, 2
  {
    if |ss| == 0 then Ok(w)
    else match EmitStmt(w, ss[0])
      case Crash(f) => Crash(f)
      case Ok(w1) =>
        var r := EmitStmts(w1, ss[1..]);
        if r.Ok? then
          GrowsTrans(w.env, w1.env, r.value.env, w.env.active, DeclaredLabels(ss[0], w.issued), AllDeclaredLabels(ss[1..], w1.issued), 0, 0);
          assert r.value.visited == w.visited + Visits(ss[0]) + AllVisits(ss[1..]);
          r
        else r
  }

  /** A `for` statement visits its init and its step and nothing else: not
      its test, and not its body, whose variables are never declared and whose
      missing else branches never crash. A `while` visits nothing. */
  lemma LoopBodiesSkipped(w: Walk, i: Expr, t: Expr, st: Expr, b: Stmt)
    requires Valid(w.env)
    ensures EmitStmt(w, For(i, t, st, b)) == Ok(w.(visited := w.visited + [i, st]))
    ensures EmitStmt(w, While(t, b)) == Ok(w)
  {
  }

  /** A statement walk only adds the `Location`s it hands out itself: every
      `Label` of the arena stays older than the next one. */
  lemma {:induction false} StmtIssued(w: Walk, s: Stmt)
    requires Valid(w.env) && EmitStmt(w, s).Ok? && IssuedBefore(w.env, w.issued)
    ensures IssuedBefore(EmitStmt(w, s).value.env, EmitStmt(w, s).value.issued)
    decreases s, 0
  {
    match s
    case Block(vs, ss) =>
      VarsIssued(w, vs);
      var w1 := EmitVars(w, vs).value;
      StmtsIssued(w1, ss);
    case While(_, _) =>
    case For(_, _, _, _) =>
    case If(t, tb, eb) =>
      var w1 := EmitExpr(w, t);
      StmtIssued(w1, tb);
      var w2 := EmitStmt(w1, tb).value;
      StmtIssued(w2, eb.value);
    case Return(_) =>
    case Print(_) =>
  }

  lemma {:induction false} StmtsIssued(w: Walk, ss: seq<Stmt>)
    requires Valid(w.env) && EmitStmts(w, ss).Ok? && IssuedBefore(w.env, w.issued)
    ensures IssuedBefore(EmitStmts(w, ss).value.env, EmitStmts(w, ss).value.issued)
    decreases ss, 1
  {
    if |ss| > 0 {
      StmtIssued(w, ss[0]);
      var w1 := EmitStmt(w, ss[0]).value;
      StmtsIssued(w1, ss[1..]);
    }
  }
}
