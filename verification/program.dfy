/** `Program::Emit`: the root table and the walk over the top-level
    declarations, and what the finished arena looks like. */
module Programs {
  import opened Base
  import opened SymbolTable
  import opened Ast
  import opened Emission
  import opened Statements
  import opened Declarations

  /** `Program::Emit`: builds a table without owner (the global table), which
      the constructor makes active, and walks every top-level declaration with
      it active, in order. The global table stays active afterwards. */
  function EmitProgram(w: Walk, decls: seq<Decl>, k: Layout): (r: Result<Walk>)
    requires Valid(w.env)
    ensures r.Ok? <==> AllDeclSafe(decls, true)
    ensures r.Ok? ==> Valid(r.value.env) && r.value.env.active == Some(|w.env.tables|)
    ensures r.Ok? ==> r.value.env.tables[..|w.env.tables|] == w.env.tables
    ensures r.Ok? ==> |r.value.env.tables| == |w.env.tables| + 1 + AllTablesCreated(decls)
    ensures r.Ok? ==> (r.value.env.tables[|w.env.tables|]
                       == Table(w.env.active, None, AllActiveLabels(decls, w.issued), k.firstGlobal))
    ensures r.Ok? ==> r.value.visited == w.visited + AllDeclVisits(decls) && r.value.issued == w.issued + AllDeclIssues(decls)
  {
    var (e1, g) := NewGlobalTable(w.env, k);
    var r := EmitDecls(w.(env := e1), decls, k);
    if r.Ok? then
      assert r.value.env.tables[..g] == w.env.tables by {
        forall i | 0 <= i < g ensures r.value.env.tables[i] == w.env.tables[i] {
          assert e1.tables[i] == e1.tables[..g][i];
        }
      }
      r
    else r
  }

  /** The walk a compilation performs: `Program::Emit` before any table
      exists. */
  function Compile(decls: seq<Decl>, k: Layout): (r: Result<Walk>)
    ensures r.Ok? <==> AllDeclSafe(decls, true)
  {
    EmitProgram(Walk(Initial(k), [], 0), decls, k)
  }

  /** After a whole compilation, the tables form one tree: the global table
      (table 0, active again at the end) is the only one without parent and
      the only one without owner, every other table is owned by the class or
      function it was built for, and every chain of parents ends at the
      global table. The global table holds exactly the top-level variables'
      and functions' `Location`s, in order, numbered from the first call. */
  lemma CompiledTree(decls: seq<Decl>, k: Layout, t: nat)
    requires Compile(decls, k).Ok?
    ensures var e := Compile(decls, k).value.env;
      && Valid(e) && SingleRooted(e) && OwnedBelowRoot(e)
      && e.active == Some(0)
      && e.tables[0] == Table(None, None, AllActiveLabels(decls, 0), k.firstGlobal)
      && |e.tables| == 1 + AllTablesCreated(decls)
      && (t < |e.tables| ==> Chain(e, t)[|Chain(e, t)| - 1] == 0)
  {
    var e := Compile(decls, k).value.env;
    var (e1, g) := NewGlobalTable(Initial(k), k);
    var r := EmitDecls(Walk(e1, [], 0), decls, k);
    assert r == Compile(decls, k);
    assert Grows(e1, e, Some(0), AllActiveLabels(decls, 0), AllTablesCreated(decls));
    if t < |e.tables| {
      ChainEndsAtRoot(e, t);
    }
  }

  /** Every `Location` of a compiled program's arena was handed out during the
      compilation, one per declared variable, class and function: the walk
      starts from no `Label` at all, and every step keeps the arena's `Label`s
      older than the next one to be handed out. */
  lemma CompiledIssued(decls: seq<Decl>, k: Layout)
    requires Compile(decls, k).Ok?
    ensures Compile(decls, k).value.issued == AllDeclIssues(decls)
    ensures IssuedBefore(Compile(decls, k).value.env, Compile(decls, k).value.issued)
  {
    var e1 := NewGlobalTable(Initial(k), k).0;
    assert IssuedBefore(Initial(k), 0);
    NewGlobalIssued(Initial(k), k, 0);
    DeclsIssued(Walk(e1, [], 0), decls, k);
    assert EmitDecls(Walk(e1, [], 0), decls, k) == Compile(decls, k);
  }

  /** In a compiled program, `FindClassTable` as written never answers NULL:
      a search for a name no enclosing class or function owns reads the
      global table's NULL owner. The corrected search answers NULL there. */
  lemma CompiledFindClassTable(decls: seq<Decl>, k: Layout, t: nat, typeName: string)
    requires Compile(decls, k).Ok?
    requires t < |Compile(decls, k).value.env.tables|
    ensures var e := Compile(decls, k).value.env;
      && FindClassTable(e, t, typeName) != Ok(None)
      && (FindClassTableChecked(e, t, typeName).None? ==> FindClassTable(e, t, typeName) == Crash(NoClassName))
  {
    CompiledTree(decls, k, t);
    FindClassTableNeverNull(Compile(decls, k).value.env, t, typeName);
  }

  /** The smallest such case: the empty program's global table. */
  lemma EmptyProgramFindClassTable(k: Layout)
    ensures Compile([], k).Ok?
    ensures FindClassTable(Compile([], k).value.env, 0, "A") == Crash(NoClassName)
    ensures FindClassTableChecked(Compile([], k).value.env, 0, "A") == None
  {
  }

  /** `class A { int x; void m(int x) { } }`: the formal `x` shadows the
      field `x`. The class asks for `Location` 0, the field for 1, the
      function for 2 and the formal for 3. */
  const ExampleX := VarDecl(Var("x", "int"))
  const ExampleM := FnDecl("m", "void", [Var("x", "int")], Some(Block([], [])))
  const ExampleClass := ClassDecl("A", None, [], [ExampleX, ExampleM])

  /** The members of the example class, walked with the class table (table 1)
      active after one `Location` has been handed out: `x` joins the class
      table, then `m` joins it and gets a table of its own under it, holding
      the formal. */
  lemma ExampleMembers(e: Env, k: Layout)
    requires Valid(e) && |e.tables| == 2 && e.active == Some(1)
    ensures var r := EmitDecls(Walk(e, [], 1), [ExampleX, ExampleM], k);
      && r.Ok? && |r.value.env.tables| == 3
      && r.value.env.tables[2] == Table(Some(1), Some(Label("m", 2)), [Label("x", 3)], k.firstLocal)
  {
    var w := Walk(e, [], 1);
    var rx := EmitDecl(w, ExampleX, k);
    assert rx.Ok? && rx.value.issued == 2;
    var rm := EmitDecl(rx.value, ExampleM, k);
    assert StmtSafe(Block([], []), true);
    assert rm.Ok?;
    assert VarLabels([Var("x", "int")], 3) == [Label("x", 3)];
    assert DeclaredLabels(Block([], []), 4) == [];
    assert EmitDecls(w, [ExampleX, ExampleM], k) == EmitDecls(rx.value, [ExampleM], k);
    assert EmitDecls(rx.value, [ExampleM], k) == rm;
  }

  /** The example class walked with the global table (table 0) active: the
      class table is table 1, holding `A`, the field `x` and `m`, and `m`'s
      table is table 2; the global table is not changed. */
  lemma ExampleClassWalk(e: Env, k: Layout)
    requires Valid(e) && |e.tables| == 1 && e.active == Some(0)
    ensures var r := EmitClass(Walk(e, [], 0), ExampleClass, k);
      && r.Ok? && |r.value.env.tables| == 3
      && r.value.env.tables[0] == e.tables[0]
      && r.value.env.tables[1] == Table(Some(0), Some(Label("A", 0)), [Label("A", 0), Label("x", 1), Label("m", 2)], k.firstLocal)
      && r.value.env.tables[2] == Table(Some(1), Some(Label("m", 2)), [Label("x", 3)], k.firstLocal)
  {
    var w := Walk(e, [], 0);
    var w2 := ClassStart(w, ExampleClass, k);
    ExampleMembers(w2.env, k);
    assert w2 == Walk(w2.env, [], 1);
    var r := EmitClass(w, ExampleClass, k);
    assert r.value.env.tables[0] == r.value.env.tables[..1][0];
    ExampleLabels();
    assert [Label("A", 0)] + [Label("x", 1), Label("m", 2)] == [Label("A", 0), Label("x", 1), Label("m", 2)];
  }

  lemma ExampleLabels()
    ensures AllActiveLabels([ExampleX, ExampleM], 1) == [Label("x", 1), Label("m", 2)]
  {
    assert [ExampleX, ExampleM][1..] == [ExampleM];
    assert DeclIssues(ExampleX) == 1;
    assert AllActiveLabels([ExampleM], 2) == [Label("m", 2)];
  }

  /** Compiling the example is walking its one class with the global table
      active. */
  lemma ExampleCompile(k: Layout)
    ensures Compile([ExampleClass], k) == EmitClass(Walk(NewGlobalTable(Initial(k), k).0, [], 0), ExampleClass, k)
  {
    var (e1, g) := NewGlobalTable(Initial(k), k);
    var w1 := Walk(e1, [], 0);
    assert EmitDecls(w1, [ExampleClass], k) == EmitClass(w1, ExampleClass, k);
  }

  /** The example compiled: the global table stays empty (the class's own
      `Location` goes into the class table), the class table holds `A`, the
      field `x` and `m` in that order, and `m`'s table hangs under the class
      table, owned by `m`, holding the formal `x` -- a `Location` of its own,
      not the field's. */
  lemma ExampleTables(k: Layout)
    ensures Compile([ExampleClass], k).Ok?
    ensures Compile([ExampleClass], k).value.env.tables
         == [ Table(None, None, [], k.firstGlobal),
              Table(Some(0), Some(Label("A", 0)), [Label("A", 0), Label("x", 1), Label("m", 2)], k.firstLocal),
              Table(Some(1), Some(Label("m", 2)), [Label("x", 3)], k.firstLocal) ]
  {
    var (e1, g) := NewGlobalTable(Initial(k), k);
    assert e1.tables[0] == Table(None, None, [], k.firstGlobal);
    ExampleClassWalk(e1, k);
    ExampleCompile(k);
    var e := EmitClass(Walk(e1, [], 0), ExampleClass, k).value.env;
    assert e.tables == [e.tables[0], e.tables[1], e.tables[2]];
  }

  /** In the example, looking `x` up from `m`'s table finds the formal, from
      the class table the field, and from the global table nothing. */
  lemma ExampleLookups(k: Layout)
    ensures Compile([ExampleClass], k).Ok? && |Compile([ExampleClass], k).value.env.tables| == 3
    ensures Lookup(Compile([ExampleClass], k).value.env, 2, "x") == Some(Label("x", 3))
    ensures Lookup(Compile([ExampleClass], k).value.env, 1, "x") == Some(Label("x", 1))
    ensures Lookup(Compile([ExampleClass], k).value.env, 0, "x") == None
  {
    ExampleTables(k);
    var e := Compile([ExampleClass], k).value.env;
    assert FirstBinding(e.tables[2].symbols, "x") == Some(Label("x", 3));
    assert FirstBinding(e.tables[1].symbols, "x") == Some(Label("x", 1));
  }
}
