/** The declaration walk (`Decl::Emit`). Classes and functions each get a
    table of their own, hung under the table active on entry, made active
    while their parts are walked, and left again by making its parent active. */
module Declarations {
  import opened Base
  import opened SymbolTable
  import opened Ast
  import opened Emission
  import opened Statements

  /** How many `Location`s a declaration's walk asks the code generator for:
      one for every variable, class and function declared, formals and block
      variables of function bodies included. */
  function DeclIssues(d: Decl): nat
    decreases d
  {
    match d
    case VarDecl(_) => 1
    case ClassDecl(_, _, _, ms) => 1 + AllDeclIssues(ms)
    case InterfaceDecl(_, ms) => AllDeclIssues(ms)
    case FnDecl(_, _, fs, b) => 1 + |fs| + (match b case None => 0 case Some(s) => StmtIssues(s))
  }

  function AllDeclIssues(ds: seq<Decl>): nat
    decreases ds
  {
    if |ds| == 0 then 0 else DeclIssues(ds[0]) + AllDeclIssues(ds[1..])
  }

  /** The `Location`s a declaration's walk appends to the table active on
      entry, when the code generator's next serial is `n`: a variable's and a
      function's own, an interface's members', and nothing for a class, whose
      own `Location` goes into its own table. */
  function ActiveLabels(d: Decl, n: nat): seq<Location>
    decreases d
  {
    match d
    case VarDecl(v) => [Label(v.name, n)]
    case ClassDecl(_, _, _, _) => []
    case InterfaceDecl(_, ms) => AllActiveLabels(ms, n)
    case FnDecl(f, _, _, _) => [Label(f, n)]
  }

  function AllActiveLabels(ds: seq<Decl>, n: nat): seq<Location>
    decreases ds
  {
    if |ds| == 0 then [] else ActiveLabels(ds[0], n) + AllActiveLabels(ds[1..], n + DeclIssues(ds[0]))
  }

  /** How many tables a declaration's walk builds: one per class and one per
      function, nested ones included. */
  function TablesCreated(d: Decl): nat
    decreases d
  {
    match d
    case VarDecl(_) => 0
    case ClassDecl(_, _, _, ms) => 1 + AllTablesCreated(ms)
    case InterfaceDecl(_, ms) => AllTablesCreated(ms)
    case FnDecl(_, _, _, _) => 1
  }

  function AllTablesCreated(ds: seq<Decl>): nat
    decreases ds
  {
    if |ds| == 0 then 0 else TablesCreated(ds[0]) + AllTablesCreated(ds[1..])
  }

  /** The expressions a declaration's walk visits: those of function bodies. */
  function DeclVisits(d: Decl): seq<Expr>
    decreases d
  {
    match d
    case VarDecl(_) => []
    case ClassDecl(_, _, _, ms) => AllDeclVisits(ms)
    case InterfaceDecl(_, ms) => AllDeclVisits(ms)
    case FnDecl(_, _, _, b) => (match b case None => [] case Some(s) => Visits(s))
  }

  function AllDeclVisits(ds: seq<Decl>): seq<Expr>
    decreases ds
  {
    if |ds| == 0 then [] else DeclVisits(ds[0]) + AllDeclVisits(ds[1..])
  }

  /** Whether a declaration's walk returns normally, given whether a table is
      active on entry. A variable or a function needs an active table (it adds
      to it first); a class does not, since its own table is active by then.
      A function needs a body (a prototype crashes), and its body is walked
      with the function's table active. */
  predicate DeclSafe(d: Decl, hasActive: bool)
    decreases d
  {
    match d
    case VarDecl(_) => hasActive
    case ClassDecl(_, _, _, ms) => AllDeclSafe(ms, true)
    case InterfaceDecl(_, ms) => AllDeclSafe(ms, hasActive)
    case FnDecl(_, _, _, b) => hasActive && b.Some? && StmtSafe(b.value, true)
  }

  predicate AllDeclSafe(ds: seq<Decl>, hasActive: bool)
    decreases ds
  {
    |ds| == 0 || (DeclSafe(ds[0], hasActive) && AllDeclSafe(ds[1..], hasActive))
  }

  /** Entering a fresh owned table, walking with it active, and leaving it by
      making the table active on entry active again builds exactly the fresh
      table (plus what the walk built) and leaves every older table as it was. */
  lemma EnterLeave(e0: Env, l: Location, k: Layout, e3: Env, added: seq<Location>, c: nat)
    requires Valid(e0) && Valid(e3)
    requires Grows(NewOwnedTable(e0, l, k).0, e3, Some(|e0.tables|), added, c)
    ensures |e0.tables| < |e3.tables| && e3.tables[|e0.tables|].parent == e0.active
    ensures var e4 := SwitchActive(e3, e0.active);
      && Grows(e0, e4, e0.active, [], 1 + c)
      && e4.tables[|e0.tables|] == Table(e0.active, Some(l), added, k.firstLocal)
  {
    var (e1, n) := NewOwnedTable(e0, l, k);
    var e4 := SwitchActive(e3, e0.active);
    assert e1.tables[n] == Table(e0.active, Some(l), [], k.firstLocal);
    forall i | 0 <= i < |e0.tables|
      ensures e4.tables[i] == e0.tables[i]
    {
      assert e1.tables[i] == e1.tables[..n][i];
    }
    if e0.active.Some? {
      assert e0.tables[e0.active.value].symbols + [] == e0.tables[e0.active.value].symbols;
    }
  }

  /** `VarDecl::Emit`, `ClassDecl::Emit`, `InterfaceDecl::Emit` or
      `FnDecl::Emit`. The walk returns normally exactly when the declaration
      is safe; then it has appended the declaration's `Location`s to the
      table active on entry, built its tables, changed no other older table,
      and the table active on entry is active again. */
  function EmitDecl(w: Walk, d: Decl, k: Layout): (r: Result<Walk>)
    requires Valid(w.env)
    ensures r.Ok? <==> DeclSafe(d, w.env.active.Some?)
    ensures r.Ok? ==> Valid(r.value.env) && Grows(w.env, r.value.env, w.env.active, ActiveLabels(d, w.issued), TablesCreated(d))
    ensures r.Ok? ==> r.value.visited == w.visited + DeclVisits(d) && r.value.issued == w.issued + DeclIssues(d)
    decreases d, 1
  {
    match d
    case VarDecl(v) => EmitVar(w, v)
    case ClassDecl(_, _, _, _) => EmitClass(w, d, k)
    case InterfaceDecl(_, ms) => EmitDecls(w, ms, k)
    case FnDecl(_, _, _, _) => EmitFn(w, d, k)
  }

  /** `ClassDecl::Emit`. The class table is built (and so made active) before
      the class's `Location` is added to the active table, which therefore
      puts it into the class table, not the enclosing one. The members are
      walked with the class table active; then its parent, the table active
      on entry, is made active again. No older table changes at all. */
  function EmitClass(w: Walk, d: Decl, k: Layout): (r: Result<Walk>)
    requires Valid(w.env) && d.ClassDecl?
    ensures r.Ok? <==> AllDeclSafe(d.members, true)
    ensures r.Ok? ==> Valid(r.value.env) && Grows(w.env, r.value.env, w.env.active, [], TablesCreated(d))
    ensures r.Ok? ==> r.value.env.tables[..|w.env.tables|] == w.env.tables
    ensures r.Ok? ==> (r.value.env.tables[|w.env.tables|]
                       == Table(w.env.active, Some(Label(d.name, w.issued)),
                                [Label(d.name, w.issued)] + AllActiveLabels(d.members, w.issued + 1), k.firstLocal))
    ensures r.Ok? ==> r.value.visited == w.visited + AllDeclVisits(d.members) && r.value.issued == w.issued + DeclIssues(d)
    ensures r.Ok? ==> var w2 := ClassStart(w, d, k);
      && EmitDecls(w2, d.members, k).Ok?
      && r.value.env.tables == EmitDecls(w2, d.members, k).value.env.tables
      && r.value.issued == EmitDecls(w2, d.members, k).value.issued
    decreases d, 0
  {
    var l := Label(d.name, w.issued);
    var n := |w.env.tables|;
    var w2 := ClassStart(w, d, k);
    var r := EmitDecls(w2, d.members, k);
    if r.Crash? then r
    else
      var e3 := r.value.env;
      ClassLeave(w.env, l, k, w2.env, e3, AllActiveLabels(d.members, w.issued + 1), AllTablesCreated(d.members));
      Ok(r.value.(env := SwitchActive(e3, e3.tables[n].parent)))
  }

  /** The arena `ClassDecl::Emit` leaves behind: one new table holding the
      class's own `Location` and then its members', every older table as it
      was. */
  lemma ClassLeave(e0: Env, l: Location, k: Layout, e2: Env, e3: Env, ms: seq<Location>, c: nat)
    requires Valid(e0) && Valid(e2) && Valid(e3)
    requires Grows(NewOwnedTable(e0, l, k).0, e2, Some(|e0.tables|), [l], 0)
    requires Grows(e2, e3, Some(|e0.tables|), ms, c)
    ensures |e0.tables| < |e3.tables|
    ensures var e4 := SwitchActive(e3, e3.tables[|e0.tables|].parent);
      && Valid(e4) && Grows(e0, e4, e0.active, [], 1 + c)
      && e4.tables[..|e0.tables|] == e0.tables
      && e4.tables[|e0.tables|] == Table(e0.active, Some(l), [l] + ms, k.firstLocal)
  {
    var n := |e0.tables|;
    GrowsTrans(NewOwnedTable(e0, l, k).0, e2, e3, Some(n), [l], ms, 0, c);
    EnterLeave(e0, l, k, e3, [l] + ms, c);
    var e4 := SwitchActive(e3, e3.tables[n].parent);
    assert e4.tables[..n] == e0.tables;
  }

  /** `FnDecl::Emit`. The function's `Location` is added to the table active
      on entry first; then the function's table is built under it, owned by
      that `Location` and made active; the formals are walked into it in list
      order, then the body (a prototype crashes here); then its parent, the
      table active on entry, is made active again. The name `main` is treated
      like any other. */
  function EmitFn(w: Walk, d: Decl, k: Layout): (r: Result<Walk>)
    requires Valid(w.env) && d.FnDecl?
    ensures r.Ok? <==> w.env.active.Some? && d.body.Some? && StmtSafe(d.body.value, true)
    ensures r.Ok? ==> Valid(r.value.env) && Grows(w.env, r.value.env, w.env.active, [Label(d.name, w.issued)], 1)
    ensures r.Ok? ==> (r.value.env.tables[|w.env.tables|]
                       == Table(w.env.active, Some(Label(d.name, w.issued)),
                                VarLabels(d.formals, w.issued + 1) + DeclaredLabels(d.body.value, w.issued + 1 + |d.formals|),
                                k.firstLocal))
    ensures r.Ok? ==> r.value.visited == w.visited + Visits(d.body.value) && r.value.issued == w.issued + DeclIssues(d)
    decreases d, 0
  {
    var l := Label(d.name, w.issued);
    match AddToActive(w.env, l)
    case Crash(f) => Crash(f)
    case Ok(e1) =>
      var (e2, n) := NewOwnedTable(e1, l, k);
      match EmitVars(Walk(e2, w.visited, w.issued + 1), d.formals)
      case Crash(f) => Crash(f)
      case Ok(w3) =>
        match d.body
        case None => Crash(MissingFunctionBody)
        case Some(b) =>
          var r := EmitStmt(w3, b);
          if r.Crash? then r
          else
            var e4 := r.value.env;
            FnLeave(w.env, l, k, e1, w3.env, e4, VarLabels(d.formals, w.issued + 1), DeclaredLabels(b, w3.issued));
            Ok(r.value.(env := SwitchActive(e4, e4.tables[n].parent)))
  }

  /** Entering a class hands out one `Location`, which owns the new table and
      goes into it, and nothing else. */
  lemma ClassEntryIssued(e: Env, name: string, n: nat, k: Layout)
    requires Valid(e)
    ensures IssuedBefore(e, n)
        ==> IssuedBefore(Add(NewOwnedTable(e, Label(name, n), k).0, |e.tables|, Label(name, n)), n + 1)
  {
    if IssuedBefore(e, n) {
      IssuedLater(e, n, n + 1);
      NewOwnedIssued(e, Label(name, n), k, n + 1);
      AddIssued(NewOwnedTable(e, Label(name, n), k).0, |e.tables|, Label(name, n), n + 1);
    }
  }

  /** Entering a function hands out one `Location`, which goes into the table
      active on entry and owns the new table, and nothing else. */
  lemma FnEntryIssued(e: Env, a: nat, name: string, n: nat, k: Layout)
    requires Valid(e) && a < |e.tables|
    ensures IssuedBefore(e, n)
        ==> IssuedBefore(NewOwnedTable(Add(e, a, Label(name, n)), Label(name, n), k).0, n + 1)
  {
    if IssuedBefore(e, n) {
      AddFresh(e, a, name, n);
      NewOwnedIssued(Add(e, a, Label(name, n)), Label(name, n), k, n + 1);
    }
  }

  /** The arena `FnDecl::Emit` leaves behind: the function's `Location` in the
      table active on entry, and one new table holding the formals' and then
      the body's `Location`s. */
  lemma FnLeave(e0: Env, l: Location, k: Layout, e1: Env, e3: Env, e4: Env, fs: seq<Location>, bs: seq<Location>)
    requires Valid(e0) && e0.active.Some? && Valid(e1) && Valid(e3) && Valid(e4)
    requires Grows(e0, e1, e0.active, [l], 0)
    requires Grows(NewOwnedTable(e1, l, k).0, e3, Some(|e1.tables|), fs, 0)
    requires Grows(e3, e4, Some(|e1.tables|), bs, 0)
    ensures |e1.tables| == |e0.tables| < |e4.tables|
    ensures var e5 := SwitchActive(e4, e4.tables[|e1.tables|].parent);
      && Valid(e5) && Grows(e0, e5, e0.active, [l], 1)
      && e5.tables[|e0.tables|] == Table(e0.active, Some(l), fs + bs, k.firstLocal)
  {
    var (e2, n) := NewOwnedTable(e1, l, k);
    GrowsTrans(e2, e3, e4, Some(n), fs, bs, 0, 0);
    EnterLeave(e1, l, k, e4, fs + bs, 0);
    var e5 := SwitchActive(e4, e4.tables[n].parent);
    GrowsTrans(e0, e1, e5, e0.active, [l], [], 0, 1);
    assert [l] + [] == [l];
  }

  /** Scoping of a function: once `FnDecl::Emit` has returned, the
      function's table sees its formals and its body's variables first, in
      declaration order, and then what the table active on entry sees; a
      formal or local so found is a `Location` of its own, never the one an
      outer declaration of the same name got; and every older table sees only
      the function's own `Location`, added to the table active on entry, and
      none of its formals or locals. */
  lemma FnScope(w: Walk, d: Decl, k: Layout, name: string, u: nat)
    requires Valid(w.env) && d.FnDecl? && EmitFn(w, d, k).Ok? && IssuedBefore(w.env, w.issued)
    ensures var e2 := EmitFn(w, d, k).value.env; var a := w.env.active.value;
      var outer := Add(w.env, a, Label(d.name, w.issued));
      var inner := VarLabels(d.formals, w.issued + 1) + DeclaredLabels(d.body.value, w.issued + 1 + |d.formals|);
      && Lookup(e2, |w.env.tables|, name)
         == (if FirstBinding(inner, name).Some? then FirstBinding(inner, name) else Lookup(outer, a, name))
      && (FirstBinding(inner, name).Some? ==> Lookup(e2, |w.env.tables|, name) != Lookup(outer, a, name))
      && (u < |w.env.tables| ==> Lookup(e2, u, name) == Lookup(outer, u, name))
  {
    FnView(w, d, k, name);
    if u < |w.env.tables| {
      FnOuterView(w, d, k, name, u);
    }
    FnFresh(w, d, name);
  }

  /** The freshness half of `FnScope`, stated without the walk: once the
      function's own `Location` is in the table active on entry, none of
      its formals' and body variables' `Location`s is an answer there. */
  lemma FnFresh(w: Walk, d: Decl, name: string)
    requires Valid(w.env) && d.FnDecl? && d.body.Some? && IssuedBefore(w.env, w.issued)
    requires w.env.active.Some? && w.env.active.value < |w.env.tables|
    ensures var a := w.env.active.value;
      var inner := VarLabels(d.formals, w.issued + 1) + DeclaredLabels(d.body.value, w.issued + 1 + |d.formals|);
      FirstBinding(inner, name).Some? ==> FirstBinding(inner, name) != Lookup(Add(w.env, a, Label(d.name, w.issued)), a, name)
  {
    var a := w.env.active.value;
    var l := Label(d.name, w.issued);
    IssuedLater(w.env, w.issued, w.issued + 1);
    AddIssued(w.env, a, l, w.issued + 1);
    var inner := VarLabels(d.formals, w.issued + 1) + DeclaredLabels(d.body.value, w.issued + 1 + |d.formals|);
    FreshInner(d, w.issued, Add(w.env, a, l), a, name, inner);
  }

  /** What the function's own table sees: its formals and body variables
      first, then whatever the table active on entry sees. */
  lemma FnView(w: Walk, d: Decl, k: Layout, name: string)
    requires Valid(w.env) && d.FnDecl? && EmitFn(w, d, k).Ok?
    ensures d.body.Some? && w.env.active.Some? && w.env.active.value < |w.env.tables|
    ensures var e2 := EmitFn(w, d, k).value.env; var a := w.env.active.value;
      var outer := Add(w.env, a, Label(d.name, w.issued));
      var inner := VarLabels(d.formals, w.issued + 1) + DeclaredLabels(d.body.value, w.issued + 1 + |d.formals|);
      Lookup(e2, |w.env.tables|, name)
      == (if FirstBinding(inner, name).Some? then FirstBinding(inner, name) else Lookup(outer, a, name))
  {
    var e2 := EmitFn(w, d, k).value.env;
    var a := w.env.active.value;
    var n := |w.env.tables|;
    var l := Label(d.name, w.issued);
    var inner := VarLabels(d.formals, w.issued + 1) + DeclaredLabels(d.body.value, w.issued + 1 + |d.formals|);
    assert e2.tables[n].symbols == inner && e2.tables[n].parent == Some(a);
    assert Appended(w.env, a, [l]) == Add(w.env, a, l);
    WalkView(w.env, e2, a, [l], 1, a, name);
  }

  /** What an older table sees after the function: only the function's own
      `Location`, added to the table active on entry. */
  lemma FnOuterView(w: Walk, d: Decl, k: Layout, name: string, u: nat)
    requires Valid(w.env) && d.FnDecl? && EmitFn(w, d, k).Ok? && u < |w.env.tables|
    ensures w.env.active.Some? && w.env.active.value < |w.env.tables|
    ensures Lookup(EmitFn(w, d, k).value.env, u, name) == Lookup(Add(w.env, w.env.active.value, Label(d.name, w.issued)), u, name)
  {
    var e2 := EmitFn(w, d, k).value.env;
    var a := w.env.active.value;
    var l := Label(d.name, w.issued);
    assert Appended(w.env, a, [l]) == Add(w.env, a, l);
    WalkView(w.env, e2, a, [l], 1, u, name);
  }

  /** The formals' and body variables' `Location`s of a function all come
      after the `k`-th, so none is an answer of a lookup in an arena whose
      `Label`s all come before it. */
  lemma FreshInner(d: Decl, k: nat, e: Env, a: nat, name: string, inner: seq<Location>)
    requires d.FnDecl? && d.body.Some? && Valid(e) && a < |e.tables| && IssuedBefore(e, k + 1)
    requires inner == VarLabels(d.formals, k + 1) + DeclaredLabels(d.body.value, k + 1 + |d.formals|)
    ensures FirstBinding(inner, name).Some? ==> FirstBinding(inner, name) != Lookup(e, a, name)
  {
    var fs := VarLabels(d.formals, k + 1);
    var bs := DeclaredLabels(d.body.value, k + 1 + |d.formals|);
    VarLabelsAt(d.formals, k + 1);
    DeclaredLabelsConsecutive(d.body.value, k + 1 + |d.formals|);
    ConsecutiveConcat(fs, bs, k + 1);
    if FirstBinding(fs + bs, name).Some? {
      var x := FirstBinding(fs + bs, name).value;
      var i :| 0 <= i < |fs + bs| && (fs + bs)[i] == x;
      LookupIssued(e, a, name, k + 1);
    }
  }

  /** An interface walks its members in the table active on entry, so a
      member prototype (a function without body) crashes the walk: with a
      table active, at the missing body; with none, at adding the
      prototype's `Location`. */
  lemma InterfacePrototypeCrashes(w: Walk, name: string, f: string, rt: string, formals: seq<Var>, k: Layout)
    requires Valid(w.env)
    ensures EmitDecl(w, InterfaceDecl(name, [FnDecl(f, rt, formals, None)]), k)
         == Crash(if w.env.active.Some? then MissingFunctionBody else NoActiveTable)
  {
    var p := FnDecl(f, rt, formals, None);
    assert EmitDecls(w, [p], k) == EmitFn(w, p, k);
    if w.env.active.Some? {
      var e1 := Add(w.env, w.env.active.value, Label(f, w.issued));
      var (e2, n) := NewOwnedTable(e1, Label(f, w.issued), k);
      assert EmitVars(Walk(e2, w.visited, w.issued + 1), formals).Ok?;
    }
  }

  /** `List::EmitForAll` over declarations, in list order. */
  function EmitDecls(w: Walk, ds: seq<Decl>, k: Layout): (r: Result<Walk>)
    requires Valid(w.env)
    ensures r.Ok? <==> AllDeclSafe(ds, w.env.active.Some?)
    ensures r.Ok? ==> Valid(r.value.env) && Grows(w.env, r.value.env, w.env.active, AllActiveLabels(ds, w.issued), AllTablesCreated(ds))
    ensures r.Ok? ==> r.value.visited == w.visited + AllDeclVisits(ds) && r.value.issued == w.issued + AllDeclIssues(ds)
    decreases ds, 2
  {
    if |ds| == 0 then Ok(w)
    else
      var h := w.env.active.Some?;
      assert AllDeclSafe(ds, h) == (DeclSafe(ds[0], h) && AllDeclSafe(ds[1..], h));
      var r0 := EmitDecl(w, ds[0], k);
      if r0.Crash? then r0
      else
        var w1 := r0.value;
        var r := EmitDecls(w1, ds[1..], k);
        if r.Ok? then
          DeclsStep(w, w1, r.value, ds);
          r
        else r
  }

  lemma DeclsStep(w: Walk, w1: Walk, w2: Walk, ds: seq<Decl>)
    requires |ds| > 0
    requires Grows(w.env, w1.env, w.env.active, ActiveLabels(ds[0], w.issued), TablesCreated(ds[0]))
    requires w1.visited == w.visited + DeclVisits(ds[0]) && w1.issued == w.issued + DeclIssues(ds[0])
    requires Grows(w1.env, w2.env, w1.env.active, AllActiveLabels(ds[1..], w1.issued), AllTablesCreated(ds[1..]))
    requires w2.visited == w1.visited + AllDeclVisits(ds[1..]) && w2.issued == w1.issued + AllDeclIssues(ds[1..])
    ensures Grows(w.env, w2.env, w.env.active, AllActiveLabels(ds, w.issued), AllTablesCreated(ds))
    ensures w2.visited == w.visited + AllDeclVisits(ds) && w2.issued == w.issued + AllDeclIssues(ds)
  {
    var x := ActiveLabels(ds[0], w.issued);
    var y := AllActiveLabels(ds[1..], w1.issued);
    AllDeclVisitsStep(ds, w.issued, w1.issued);
    assert w1.env.active == w.env.active;
    GrowsTrans(w.env, w1.env, w2.env, w.env.active, x, y, TablesCreated(ds[0]), AllTablesCreated(ds[1..]));
    Append2(w.visited, w1.visited, w2.visited, DeclVisits(ds[0]), AllDeclVisits(ds[1..]));
  }

  lemma AllDeclVisitsStep(ds: seq<Decl>, n: nat, m: nat)
    requires |ds| > 0 && m == n + DeclIssues(ds[0])
    ensures AllDeclVisits(ds) == DeclVisits(ds[0]) + AllDeclVisits(ds[1..])
    ensures AllActiveLabels(ds, n) == ActiveLabels(ds[0], n) + AllActiveLabels(ds[1..], m)
    ensures AllTablesCreated(ds) == TablesCreated(ds[0]) + AllTablesCreated(ds[1..])
    ensures AllDeclIssues(ds) == DeclIssues(ds[0]) + AllDeclIssues(ds[1..])
  {
  }

  lemma Append2<T>(a: seq<T>, b: seq<T>, c: seq<T>, x: seq<T>, y: seq<T>)
    requires b == a + x && c == b + y
    ensures c == a + (x + y)
  {
  }

  /** A declaration walk only adds the `Location`s it hands out itself: every
      `Label` of the arena stays older than the next one. */
  lemma {:induction false} DeclIssued(w: Walk, d: Decl, k: Layout)
    requires Valid(w.env) && EmitDecl(w, d, k).Ok? && IssuedBefore(w.env, w.issued)
    ensures IssuedBefore(EmitDecl(w, d, k).value.env, EmitDecl(w, d, k).value.issued)
    decreases d, 1
  {
    match d
    case VarDecl(v) => VarsIssued(w, [v]);
    case ClassDecl(_, _, _, _) => ClassIssued(w, d, k);
    case InterfaceDecl(_, ms) => DeclsIssued(w, ms, k);
    case FnDecl(_, _, _, _) => FnIssued(w, d, k);
  }

  lemma {:induction false} ClassIssued(w: Walk, d: Decl, k: Layout)
    requires Valid(w.env) && d.ClassDecl? && EmitClass(w, d, k).Ok? && IssuedBefore(w.env, w.issued)
    ensures IssuedBefore(EmitClass(w, d, k).value.env, EmitClass(w, d, k).value.issued)
    decreases d, 0
  {
    DeclsIssued(ClassStart(w, d, k), d.members, k);
  }

  /** The walk a class's members start from: the class table built, made
      active and holding the class's own `Location`. */
  function ClassStart(w: Walk, d: Decl, k: Layout): (r: Walk)
    requires Valid(w.env) && d.ClassDecl?
    ensures Valid(r.env) && r.env.active == Some(|w.env.tables|)
    ensures Grows(NewOwnedTable(w.env, Label(d.name, w.issued), k).0, r.env, Some(|w.env.tables|), [Label(d.name, w.issued)], 0)
    ensures r.visited == w.visited && r.issued == w.issued + 1
    ensures IssuedBefore(w.env, w.issued) ==> IssuedBefore(r.env, r.issued)
  {
    var l := Label(d.name, w.issued);
    var e1 := NewOwnedTable(w.env, l, k).0;
    ClassEntryIssued(w.env, d.name, w.issued, k);
    assert AddToActive(e1, l) == Ok(Add(e1, |w.env.tables|, l));
    Walk(Add(e1, |w.env.tables|, l), w.visited, w.issued + 1)
  }


  lemma FnIssued(w: Walk, d: Decl, k: Layout)
    requires Valid(w.env) && d.FnDecl? && EmitFn(w, d, k).Ok? && IssuedBefore(w.env, w.issued)
    ensures IssuedBefore(EmitFn(w, d, k).value.env, EmitFn(w, d, k).value.issued)
  {
    var r := EmitFn(w, d, k).value;
    FnArenaIssued(w.env, r.env, w.env.active.value, d, w.issued, r.issued);
  }

  /** The arena a function's walk leaves, as its contract describes it, holds
      no `Label` handed out after the walk. */
  lemma FnArenaIssued(e: Env, e2: Env, a: nat, d: Decl, i: nat, m: nat)
    requires Valid(e) && a < |e.tables| && IssuedBefore(e, i)
    requires d.FnDecl? && d.body.Some? && m == i + DeclIssues(d)
    requires Grows(e, e2, Some(a), [Label(d.name, i)], 1)
    requires e2.tables[|e.tables|].owner == Some(Label(d.name, i))
    requires e2.tables[|e.tables|].symbols
          == VarLabels(d.formals, i + 1) + DeclaredLabels(d.body.value, i + 1 + |d.formals|)
    ensures IssuedBefore(e2, m)
  {
    InnerIssued(d, i);
    assert TableIssued(e2.tables[|e.tables|], m);
    IssuedLater(e, i, m);
    GrownIssued(e, e2, a, Label(d.name, i), m);
  }

  /** The formals' and body variables' `Location`s of a function whose own
      `Location` is the `i`-th all come before the first one handed out after
      the function. */
  lemma InnerIssued(d: Decl, i: nat)
    requires d.FnDecl? && d.body.Some?
    ensures var inner := VarLabels(d.formals, i + 1) + DeclaredLabels(d.body.value, i + 1 + |d.formals|);
      forall j :: 0 <= j < |inner| && inner[j].Label? ==> inner[j].serial < i + DeclIssues(d)
  {
    var fs := VarLabels(d.formals, i + 1);
    var bs := DeclaredLabels(d.body.value, i + 1 + |d.formals|);
    VarLabelsAt(d.formals, i + 1);
    DeclaredLabelsConsecutive(d.body.value, i + 1 + |d.formals|);
    ConsecutiveConcat(fs, bs, i + 1);
    ConsecutiveIssued(fs + bs, i + 1, i + DeclIssues(d));
  }

  lemma {:induction false} DeclsIssued(w: Walk, ds: seq<Decl>, k: Layout)
    requires Valid(w.env) && EmitDecls(w, ds, k).Ok? && IssuedBefore(w.env, w.issued)
    ensures IssuedBefore(EmitDecls(w, ds, k).value.env, EmitDecls(w, ds, k).value.issued)
    decreases ds, 2
  {
    if |ds| > 0 {
      DeclIssued(w, ds[0], k);
      var w1 := EmitDecl(w, ds[0], k).value;
      DeclsIssued(w1, ds[1..], k);
    }
  }
}
