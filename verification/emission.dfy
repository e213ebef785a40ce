/** What the declaration walk threads from node to node, how it may change
    the arena, and `VarDecl::Emit`, the one declaration both the statement
    walk and the declaration walk perform. */
module Emission {
  import opened Base
  import opened SymbolTable
  import opened Ast

  /** The walk's state: the symbol-table arena, the expressions handed to
      their own `Emit` so far, in order, and how many `Location`s the code
      generator's `GenLoadLabel` has handed out so far (the serial the next
      one gets). */
  datatype Walk = Walk(env: Env, visited: seq<Expr>, issued: nat)

  /** Every `Label` the table holds, as its owner or among its symbols, was
      handed out before the `k`-th one. */
  predicate TableIssued(t: Table, k: nat)
  {
    && (t.owner.Some? && t.owner.value.Label? ==> t.owner.value.serial < k)
    && forall j :: 0 <= j < |t.symbols| && t.symbols[j].Label? ==> t.symbols[j].serial < k
  }

  /** `TableIssued` for every table of the list. */
  predicate TablesIssued(ts: seq<Table>, k: nat)
    decreases |ts|
  {
    |ts| == 0 || (TableIssued(ts[0], k) && TablesIssued(ts[1..], k))
  }

  /** Every `Label` in the arena, held as a symbol or as an owner, was handed
      out before the `k`-th one: a `Label` with serial `k` or later is new to
      the arena. */
  predicate IssuedBefore(e: Env, k: nat)
  {
    TablesIssued(e.tables, k)
  }

  lemma {:induction false} TablesIssuedEach(ts: seq<Table>, k: nat)
    ensures TablesIssued(ts, k) <==> forall i :: 0 <= i < |ts| ==> TableIssued(ts[i], k)
    decreases |ts|
  {
    if |ts| > 0 {
      TablesIssuedEach(ts[1..], k);
      assert forall i :: 1 <= i < |ts| ==> ts[i] == ts[1..][i - 1];
    }
  }

  /** Reading a symbol's serial off an arena all of whose `Label`s come before
      the `k`-th. */
  lemma SymbolIssued(e: Env, k: nat, i: nat, j: nat)
    requires IssuedBefore(e, k) && i < |e.tables| && j < |e.tables[i].symbols| && e.tables[i].symbols[j].Label?
    ensures e.tables[i].symbols[j].serial < k
  {
    TablesIssuedEach(e.tables, k);
    assert TableIssued(e.tables[i], k);
  }

  /** How a walk over one node may change the arena when it returns normally:
      `created` tables are appended; the table `a` that was active gets
      `added` appended to its symbols and is otherwise untouched (nothing can
      be added when no table was active); every other older table is
      untouched; the active cursor and the parameter cursor end where they
      started; every appended table has an owner, and a parent whenever a
      table was active. */
  predicate Grows(e: Env, e2: Env, a: Option<nat>, added: seq<Location>, created: nat)
  {
    && |e2.tables| == |e.tables| + created
    && e2.active == e.active && e2.paramCursor == e.paramCursor
    && (forall i :: 0 <= i < |e.tables| && a != Some(i) ==> e2.tables[i] == e.tables[i])
    && (a.None? ==> added == [])
    && (a.Some? ==> a.value < |e.tables| && e2.tables[a.value] == e.tables[a.value].(symbols := e.tables[a.value].symbols + added))
    && (forall i :: |e.tables| <= i < |e2.tables| ==> e2.tables[i].owner.Some? && (a.Some? ==> e2.tables[i].parent.Some?))
  }

  lemma GrowsTrans(e1: Env, e2: Env, e3: Env, a: Option<nat>, x: seq<Location>, y: seq<Location>, m: nat, n: nat)
    requires Grows(e1, e2, a, x, m) && Grows(e2, e3, a, y, n)
    ensures Grows(e1, e3, a, x + y, m + n)
  {
    if a.Some? {
      var t := a.value;
      assert e1.tables[t].symbols + x + y == e1.tables[t].symbols + (x + y);
    }
  }

  /** The arena `e` with `added` appended to table `a`'s symbols. */
  function Appended(e: Env, a: nat, added: seq<Location>): (r: Env)
    requires Valid(e) && a < |e.tables|
    ensures Valid(r) && |r.tables| == |e.tables|
  {
    e.(tables := e.tables[a := e.tables[a].(symbols := e.tables[a].symbols + added)])
  }

  /** After a walk that returned normally, every table that existed before
      it sees exactly what it would see had the walk only appended its
      `Location`s to the active table: whatever went into the tables the walk
      built stays invisible from outside them. */
  lemma WalkView(e: Env, e2: Env, a: nat, added: seq<Location>, created: nat, u: nat, name: string)
    requires Valid(e) && Valid(e2) && a < |e.tables| && u < |e.tables|
    requires Grows(e, e2, Some(a), added, created)
    ensures Lookup(e2, u, name) == Lookup(Appended(e, a, added), u, name)
  {
    var e1 := Appended(e, a, added);
    assert e2.tables[..|e1.tables|] == e1.tables;
    SameChainAfterGrowth(e1, e2, u);
    SameChainSameView(e1, e2, u, name);
  }

  /** A bound on the serials in an arena is also met by every larger bound. */
  lemma IssuedLater(e: Env, k: nat, k2: nat)
    requires IssuedBefore(e, k) && k <= k2
    ensures IssuedBefore(e, k2)
  {
    TablesIssuedEach(e.tables, k);
    TablesIssuedEach(e.tables, k2);
    forall i | 0 <= i < |e.tables|
      ensures TableIssued(e.tables[i], k2)
    {
      assert TableIssued(e.tables[i], k);
    }
  }

  /** Appending a `Location` handed out before the `k`-th keeps every `Label`
      of the arena older than the `k`-th. */
  lemma AddIssued(e: Env, t: nat, l: Location, k: nat)
    requires Valid(e) && t < |e.tables| && IssuedBefore(e, k) && (l.Label? ==> l.serial < k)
    ensures IssuedBefore(Add(e, t, l), k)
  {
    var e2 := Add(e, t, l);
    TablesIssuedEach(e.tables, k);
    TablesIssuedEach(e2.tables, k);
    assert TableIssued(e.tables[t], k);
    assert TableIssued(e2.tables[t], k) by {
      forall j | 0 <= j < |e2.tables[t].symbols| && e2.tables[t].symbols[j].Label?
        ensures e2.tables[t].symbols[j].serial < k
      {
        if j < |e.tables[t].symbols| {
          assert e2.tables[t].symbols[j] == e.tables[t].symbols[j];
        }
      }
    }
  }

  /** A lookup only ever answers a `Location` the arena holds, so never one
      handed out after the arena was built. */
  lemma {:induction false} LookupIssued(e: Env, t: nat, name: string, k: nat)
    requires Valid(e) && t < |e.tables| && IssuedBefore(e, k)
    ensures Lookup(e, t, name).Some? && Lookup(e, t, name).value.Label? ==> Lookup(e, t, name).value.serial < k
    decreases t
  {
    match FirstBinding(e.tables[t].symbols, name)
    case Some(l) =>
      var j :| 0 <= j < |e.tables[t].symbols| && e.tables[t].symbols[j] == l;
      if l.Label? {
        SymbolIssued(e, k, t, j);
      }
    case None =>
      match e.tables[t].parent {
        case None =>
        case Some(p) => LookupIssued(e, p, name, k);
      }
  }

  /** Hands one expression to its own `Emit`. */
  function EmitExpr(w: Walk, x: Expr): (r: Walk)
    ensures r.env == w.env && r.visited == w.visited + [x] && r.issued == w.issued
  {
    w.(visited := w.visited + [x])
  }

  /** `List::EmitForAll` over expressions: each is visited, in list order. */
  function EmitExprs(w: Walk, xs: seq<Expr>): (r: Walk)
    ensures r.env == w.env && r.visited == w.visited + xs && r.issued == w.issued
    decreases |xs|
  {
    if |xs| == 0 then w
    else EmitExprs(EmitExpr(w, xs[0]), xs[1..])
  }

  /** The `Location`s the code generator hands back for variables' names, in
      order, the first with serial `n`. */
  function VarLabels(vs: seq<Var>, n: nat): seq<Location>
    decreases |vs|
  {
    if |vs| == 0 then [] else [Label(vs[0].name, n)] + VarLabels(vs[1..], n + 1)
  }

  /** The `i`-th variable gets a `Label` with its name and serial `n + i`. */
  lemma {:induction false} VarLabelsAt(vs: seq<Var>, n: nat)
    ensures |VarLabels(vs, n)| == |vs| && Consecutive(VarLabels(vs, n), n)
    ensures forall i :: 0 <= i < |vs| ==> VarLabels(vs, n)[i] == Label(vs[i].name, n + i)
    decreases |vs|
  {
    if |vs| > 0 {
      VarLabelsAt(vs[1..], n + 1);
      forall i | 1 <= i < |vs|
        ensures VarLabels(vs, n)[i] == VarLabels(vs[1..], n + 1)[i - 1]
      {
      }
    }
  }

  /** `ls` are `Label`s with the consecutive serials `n`, `n + 1`, ... */
  predicate Consecutive(ls: seq<Location>, n: nat)
  {
    forall i :: 0 <= i < |ls| ==> ls[i].Label? && ls[i].serial == n + i
  }

  lemma ConsecutiveConcat(a: seq<Location>, b: seq<Location>, n: nat)
    requires Consecutive(a, n) && Consecutive(b, n + |a|)
    ensures Consecutive(a + b, n)
  {
    forall i | |a| <= i < |a + b|
      ensures (a + b)[i] == b[i - |a|]
    {
    }
  }

  /** `SymbolTable::active->Add(l)`: a NULL dereference when no table is
      active. */
  function AddToActive(e: Env, l: Location): (r: Result<Env>)
    requires Valid(e)
    ensures r.Ok? <==> e.active.Some?
    ensures r.Ok? ==> Valid(r.value) && Grows(e, r.value, e.active, [l], 0)
  {
    match e.active
    case None => Crash(NoActiveTable)
    case Some(a) => Ok(Add(e, a, l))
  }

  /** `VarDecl::Emit`: the code generator hands out a fresh `Location` for the
      variable's name, which is appended to the active table, which stays
      active; with no active table the walk crashes. */
  function EmitVar(w: Walk, v: Var): (r: Result<Walk>)
    requires Valid(w.env)
    ensures r.Ok? <==> w.env.active.Some?
    ensures r.Ok? ==> Valid(r.value.env) && Grows(w.env, r.value.env, w.env.active, [Label(v.name, w.issued)], 0)
    ensures r.Ok? ==> r.value.visited == w.visited && r.value.issued == w.issued + 1
  {
    match AddToActive(w.env, Label(v.name, w.issued))
    case Crash(f) => Crash(f)
    case Ok(e) => Ok(Walk(e, w.visited, w.issued + 1))
  }

  /** A new table, owned by a `Location` handed out before the `m`-th one,
      keeps every `Label` of the arena before the `m`-th. */
  lemma NewOwnedIssued(e: Env, l: Location, k: Layout, m: nat)
    requires Valid(e) && IssuedBefore(e, m) && (l.Label? ==> l.serial < m)
    ensures IssuedBefore(NewOwnedTable(e, l, k).0, m)
  {
    var e2 := NewOwnedTable(e, l, k).0;
    TablesIssuedEach(e.tables, m);
    TablesIssuedEach(e2.tables, m);
    forall i | 0 <= i < |e.tables|
      ensures e2.tables[i] == e.tables[i]
    {
      assert e2.tables[i] == e2.tables[..|e.tables|][i];
    }
  }

  /** A new table without owner keeps every `Label` of the arena before the
      `m`-th. */
  lemma NewGlobalIssued(e: Env, k: Layout, m: nat)
    requires Valid(e) && IssuedBefore(e, m)
    ensures IssuedBefore(NewGlobalTable(e, k).0, m)
  {
    var e2 := NewGlobalTable(e, k).0;
    TablesIssuedEach(e.tables, m);
    TablesIssuedEach(e2.tables, m);
    forall i | 0 <= i < |e.tables|
      ensures e2.tables[i] == e.tables[i]
    {
      assert e2.tables[i] == e2.tables[..|e.tables|][i];
    }
  }

  /** A walk that appended `l` to table `a` and built one table, both with
      every `Label` before the `m`-th, leaves the arena so. */
  lemma GrownIssued(e: Env, e2: Env, a: nat, l: Location, m: nat)
    requires Valid(e) && a < |e.tables| && IssuedBefore(e, m) && (l.Label? ==> l.serial < m)
    requires Grows(e, e2, Some(a), [l], 1) && TableIssued(e2.tables[|e.tables|], m)
    ensures IssuedBefore(e2, m)
  {
    AddIssued(e, a, l, m);
    var e1 := Add(e, a, l);
    TablesIssuedEach(e1.tables, m);
    TablesIssuedEach(e2.tables, m);
    forall i | 0 <= i < |e2.tables|
      ensures TableIssued(e2.tables[i], m)
    {
      if i < |e.tables| {
        assert e2.tables[i] == e1.tables[i];
      }
    }
  }

  /** A run of consecutive `Label`s ending before the `m`-th. */
  lemma ConsecutiveIssued(ls: seq<Location>, n: nat, m: nat)
    requires Consecutive(ls, n) && n + |ls| <= m
    ensures forall j :: 0 <= j < |ls| && ls[j].Label? ==> ls[j].serial < m
  {
  }

  /** Appending the `n`-th `Location` to an arena whose `Label`s all come
      before it keeps every `Label` before the next one. */
  lemma AddFresh(e: Env, t: nat, name: string, n: nat)
    requires Valid(e) && t < |e.tables|
    ensures IssuedBefore(e, n) ==> IssuedBefore(Add(e, t, Label(name, n)), n + 1)
  {
    if IssuedBefore(e, n) {
      IssuedLater(e, n, n + 1);
      AddIssued(e, t, Label(name, n), n + 1);
    }
  }

  /** Once `VarDecl::Emit` has run, looking the variable up from the active
      table finds the new `Location`, unless that table already held the name,
      whose older binding keeps winning; the new `Location` is found exactly
      when the table did not hold the name, since it is none of the older
      ones. */
  lemma VarDeclVisible(w: Walk, v: Var)
    requires Valid(w.env) && w.env.active.Some? && IssuedBefore(w.env, w.issued)
    ensures EmitVar(w, v).Ok?
    ensures Lookup(EmitVar(w, v).value.env, w.env.active.value, v.name)
         == if Binds(w.env, w.env.active.value, v.name) then Lookup(w.env, w.env.active.value, v.name) else Some(Label(v.name, w.issued))
    ensures Lookup(EmitVar(w, v).value.env, w.env.active.value, v.name) == Some(Label(v.name, w.issued))
        <==> !Binds(w.env, w.env.active.value, v.name)
  {
    var a := w.env.active.value;
    LookupAfterAdd(w.env, a, Label(v.name, w.issued));
    if Binds(w.env, a, v.name) {
      var l := Lookup(w.env, a, v.name).value;
      var j :| 0 <= j < |w.env.tables[a].symbols| && w.env.tables[a].symbols[j] == l;
      if l.Label? {
        SymbolIssued(w.env, w.issued, a, j);
      }
    }
  }

  /** `List::EmitForAll` over variable declarations: their `Location`s are
      appended to the active table in list order. */
  function EmitVars(w: Walk, vs: seq<Var>): (r: Result<Walk>)
    requires Valid(w.env)
    ensures r.Ok? <==> (vs == [] || w.env.active.Some?)
    ensures r.Ok? ==> Valid(r.value.env) && Grows(w.env, r.value.env, w.env.active, VarLabels(vs, w.issued), 0)
    ensures r.Ok? ==> r.value.visited == w.visited && r.value.issued == w.issued + |vs|
    decreases |vs|
  {
    if |vs| == 0 then Ok(w)
    else match EmitVar(w, vs[0])
      case Crash(f) => Crash(f)
      case Ok(w1) =>
        var r := EmitVars(w1, vs[1..]);
        if r.Ok? then
          GrowsTrans(w.env, w1.env, r.value.env, w.env.active, [Label(vs[0].name, w.issued)], VarLabels(vs[1..], w.issued + 1), 0, 0);
          r
        else r
  }

  /** Variable declarations only add the `Location`s they hand out
      themselves: every `Label` of the arena stays older than the next one. */
  lemma {:induction false} VarsIssued(w: Walk, vs: seq<Var>)
    requires Valid(w.env) && EmitVars(w, vs).Ok? && IssuedBefore(w.env, w.issued)
    ensures IssuedBefore(EmitVars(w, vs).value.env, EmitVars(w, vs).value.issued)
    decreases |vs|
  {
    if |vs| > 0 {
      var w1 := EmitVar(w, vs[0]).value;
      AddFresh(w.env, w.env.active.value, vs[0].name, w.issued);
      assert w1.env == Add(w.env, w.env.active.value, Label(vs[0].name, w.issued));
      VarsIssued(w1, vs[1..]);
    }
  }
}
