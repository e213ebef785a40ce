/** The tree of symbol tables: an arena of tables addressed by index, the one
    process-wide active cursor, and the parameter-offset cursor that the
    offset-allocating `Add` keeps in a function-local `static` and so shares
    between all tables. */
module SymbolTable {
  import opened Base

  /** One table. `parent` and `owner` are what `GetParent` and `GetClassName`
      return; `symbols` is the ordered list `Lookup` searches; `offset` is the
      allocation cursor of the offset-allocating `Add`. */
  datatype Table = Table(parent: Option<nat>, owner: Option<Location>, symbols: seq<Location>, offset: int)

  /** All tables ever built, the active table and the shared parameter cursor. */
  datatype Env = Env(tables: seq<Table>, active: Option<nat>, paramCursor: int)

  /** Before any table exists: nothing active, the parameter cursor at its
      initial value. */
  function Initial(k: Layout): (r: Env)
    ensures Valid(r) && r.tables == [] && r.active == None && r.paramCursor == k.firstParam
  {
    Env([], None, k.firstParam)
  }

  /** Parent links point to older tables (so following them terminates) and
      the active cursor names a table that exists. */
  predicate Valid(e: Env)
  {
    && (forall i :: 0 <= i < |e.tables| && e.tables[i].parent.Some? ==> e.tables[i].parent.value < i)
    && (e.active.Some? ==> e.active.value < |e.tables|)
  }

  /** Exactly one table, the first one built, has no parent. */
  predicate SingleRooted(e: Env)
  {
    && |e.tables| > 0
    && e.tables[0].parent.None?
    && (forall i :: 0 < i < |e.tables| ==> e.tables[i].parent.Some?)
  }

  /** The root (table 0) has no owner; every other table has one. */
  predicate OwnedBelowRoot(e: Env)
  {
    && (|e.tables| > 0 ==> e.tables[0].owner.None?)
    && (forall i :: 0 < i < |e.tables| ==> e.tables[i].owner.Some?)
  }

  // ---------------------------------------------------------------------------
  // Constructors and the active cursor

  /** `SymbolTable()`: a table without owner whose offset starts at the first
      global offset, hung under the active table (or a root when none is
      active), and made active. */
  function NewGlobalTable(e: Env, k: Layout): (r: (Env, nat))
    requires Valid(e)
    ensures Valid(r.0)
    ensures r.1 == |e.tables| && |r.0.tables| == |e.tables| + 1 && r.0.tables[..r.1] == e.tables
    ensures r.0.tables[r.1].parent == e.active
    ensures r.0.tables[r.1].owner == None && r.0.tables[r.1].symbols == []
    ensures r.0.tables[r.1].offset == k.firstGlobal
    ensures r.0.active == Some(r.1) && r.0.paramCursor == e.paramCursor
  {
    var t := |e.tables|;
    (Env(e.tables + [Table(e.active, None, [], k.firstGlobal)], Some(t), e.paramCursor), t)
  }

  /** `SymbolTable(l)`: as `NewGlobalTable`, but owned by `l` and with the
      offset starting at the first local offset. */
  function NewOwnedTable(e: Env, l: Location, k: Layout): (r: (Env, nat))
    requires Valid(e)
    ensures Valid(r.0)
    ensures r.1 == |e.tables| && |r.0.tables| == |e.tables| + 1 && r.0.tables[..r.1] == e.tables
    ensures r.0.tables[r.1].parent == e.active
    ensures r.0.tables[r.1].owner == Some(l) && r.0.tables[r.1].symbols == []
    ensures r.0.tables[r.1].offset == k.firstLocal
    ensures r.0.active == Some(r.1) && r.0.paramCursor == e.paramCursor
  {
    var t := |e.tables|;
    (Env(e.tables + [Table(e.active, Some(l), [], k.firstLocal)], Some(t), e.paramCursor), t)
  }

  /** `SwitchActive`: moves the active cursor and nothing else. */
  function SwitchActive(e: Env, a: Option<nat>): (r: Env)
    requires Valid(e) && (a.Some? ==> a.value < |e.tables|)
    ensures Valid(r) && r.active == a
    ensures r.tables == e.tables && r.paramCursor == e.paramCursor
  {
    e.(active := a)
  }

  // ---------------------------------------------------------------------------
  // The parent chain

  /** The tables met when following `parent` from `t`: `t` first, each next
      one the parent of the previous, ending at a table without parent. */
  function Chain(e: Env, t: nat): (c: seq<nat>)
    requires Valid(e) && t < |e.tables|
    ensures |c| > 0 && c[0] == t
    ensures forall i :: 0 <= i < |c| ==> c[i] < |e.tables|
    ensures forall i :: 0 < i < |c| ==> c[i] < c[i - 1] && e.tables[c[i - 1]].parent == Some(c[i])
    ensures e.tables[c[|c| - 1]].parent == None
    decreases t
  {
    match e.tables[t].parent
    case None => [t]
    case Some(p) => [t] + Chain(e, p)
  }

  /** In a single-rooted arena every chain ends at the root. */
  lemma ChainEndsAtRoot(e: Env, t: nat)
    requires Valid(e) && SingleRooted(e) && t < |e.tables|
    ensures Chain(e, t)[|Chain(e, t)| - 1] == 0
  {
    var c := Chain(e, t);
    assert e.tables[c[|c| - 1]].parent == None;
  }

  /** The symbol lists of the tables in `c`, concatenated in chain order. */
  function Flatten(e: Env, c: seq<nat>): seq<Location>
    requires forall i :: 0 <= i < |c| ==> c[i] < |e.tables|
    decreases |c|
  {
    if |c| == 0 then [] else e.tables[c[0]].symbols + Flatten(e, c[1..])
  }

  // ---------------------------------------------------------------------------
  // Lookup

  /** Position of the first symbol in insertion order named `name`. */
  function LocalIndex(syms: seq<Location>, name: string): (r: Option<nat>)
    ensures r.Some? ==> r.value < |syms| && syms[r.value].name == name
    ensures r.Some? ==> forall j :: 0 <= j < r.value ==> syms[j].name != name
    ensures r.None? ==> forall j :: 0 <= j < |syms| ==> syms[j].name != name
    decreases |syms|
  {
    if |syms| == 0 then None
    else if syms[0].name == name then Some(0)
    else match LocalIndex(syms[1..], name)
      case None => None
      case Some(i) => Some(i + 1)
  }

  /** The first symbol in insertion order named `name`, if any. */
  function FirstBinding(syms: seq<Location>, name: string): (r: Option<Location>)
    ensures r.Some? <==> exists j :: 0 <= j < |syms| && syms[j].name == name
    ensures r.Some? ==> r.value in syms && r.value.name == name
  {
    match LocalIndex(syms, name)
    case None => None
    case Some(i) => Some(syms[i])
  }

  /** Whether table `t` itself holds a symbol named `name`. */
  predicate Binds(e: Env, t: nat, name: string)
    requires t < |e.tables|
  {
    FirstBinding(e.tables[t].symbols, name).Some?
  }

  /** `Lookup`: the first matching symbol of this table, else the parent's
      answer, else NULL at the root. */
  function Lookup(e: Env, t: nat, name: string): (r: Option<Location>)
    requires Valid(e) && t < |e.tables|
    ensures r.Some? ==> r.value.name == name
    ensures Binds(e, t, name) ==> r.Some? && r.value in e.tables[t].symbols
    decreases t
  {
    match FirstBinding(e.tables[t].symbols, name)
    case Some(l) => Some(l)
    case None =>
      match e.tables[t].parent
      case None => None
      case Some(p) => Lookup(e, p, name)
  }

  lemma {:induction false} FirstBindingConcat(a: seq<Location>, b: seq<Location>, name: string)
    ensures FirstBinding(a + b, name)
         == (if FirstBinding(a, name).Some? then FirstBinding(a, name) else FirstBinding(b, name))
  {
    if |a| == 0 {
      assert a + b == b;
    } else {
      assert (a + b)[1..] == a[1..] + b;
      FirstBindingConcat(a[1..], b, name);
      if a[0].name != name {
        assert FirstBinding(a + b, name) == FirstBinding(a[1..] + b, name);
        assert FirstBinding(a, name) == FirstBinding(a[1..], name);
      }
    }
  }

  /** `Lookup` returns the first symbol named `name` among the symbols of the
      whole parent chain, searched table by table from `t` upward. */
  lemma {:induction false} LookupIsFirstInChain(e: Env, t: nat, name: string)
    requires Valid(e) && t < |e.tables|
    ensures Lookup(e, t, name) == FirstBinding(Flatten(e, Chain(e, t)), name)
    decreases t
  {
    var c := Chain(e, t);
    assert c[1..] == (match e.tables[t].parent case None => [] case Some(p) => Chain(e, p));
    assert Flatten(e, c) == e.tables[t].symbols + Flatten(e, c[1..]);
    FirstBindingConcat(e.tables[t].symbols, Flatten(e, c[1..]), name);
    match e.tables[t].parent
    case None =>
      assert Flatten(e, c[1..]) == [];
    case Some(p) =>
      LookupIsFirstInChain(e, p, name);
  }

  /** Shadowing: the nearest table on the chain that binds `name` decides the
      answer, whatever tables further up bind. */
  lemma {:induction false} LookupNearest(e: Env, t: nat, name: string, k: nat)
    requires Valid(e) && t < |e.tables|
    requires k < |Chain(e, t)| && Binds(e, Chain(e, t)[k], name)
    requires forall j :: 0 <= j < k ==> !Binds(e, Chain(e, t)[j], name)
    ensures Lookup(e, t, name) == FirstBinding(e.tables[Chain(e, t)[k]].symbols, name)
    decreases t
  {
    var c := Chain(e, t);
    if k > 0 {
      assert e.tables[t].parent == Some(c[1]);
      var p := c[1];
      var cp := Chain(e, p);
      assert c == [t] + cp;
      forall j | 0 <= j < k - 1
        ensures !Binds(e, cp[j], name)
      {
        assert cp[j] == c[j + 1];
      }
      assert !Binds(e, c[0], name);
      assert Lookup(e, t, name) == Lookup(e, p, name);
      LookupNearest(e, p, name, k - 1);
    }
  }

  /** `Lookup` answers NULL exactly when no table on the chain binds `name`. */
  lemma LookupMiss(e: Env, t: nat, name: string)
    requires Valid(e) && t < |e.tables|
    ensures Lookup(e, t, name).None? <==> forall j :: 0 <= j < |Chain(e, t)| ==> !Binds(e, Chain(e, t)[j], name)
  {
    var c := Chain(e, t);
    if Lookup(e, t, name).None? {
      forall j | 0 <= j < |c|
        ensures !Binds(e, c[j], name)
      {
        if Binds(e, c[j], name) {
          var k := FirstBinder(e, c, name, j);
          LookupNearest(e, t, name, k);
        }
      }
    } else {
      LookupIsFirstInChain(e, t, name);
      var l := Lookup(e, t, name).value;
      FlattenMember(e, c, l);
    }
  }

  /** The first position of `c` whose table binds `name`, given one that does. */
  lemma {:induction false} FirstBinder(e: Env, c: seq<nat>, name: string, j: nat) returns (k: nat)
    requires forall i :: 0 <= i < |c| ==> c[i] < |e.tables|
    requires j < |c| && Binds(e, c[j], name)
    ensures k <= j && Binds(e, c[k], name)
    ensures forall i :: 0 <= i < k ==> !Binds(e, c[i], name)
    decreases j
  {
    if i :| 0 <= i < j && Binds(e, c[i], name) {
      k := FirstBinder(e, c, name, i);
    } else {
      k := j;
    }
  }

  lemma {:induction false} FlattenMember(e: Env, c: seq<nat>, l: Location)
    requires forall i :: 0 <= i < |c| ==> c[i] < |e.tables|
    requires l in Flatten(e, c)
    ensures exists j :: 0 <= j < |c| && Binds(e, c[j], l.name)
    decreases |c|
  {
    if l in e.tables[c[0]].symbols {
      var i :| 0 <= i < |e.tables[c[0]].symbols| && e.tables[c[0]].symbols[i] == l;
      assert Binds(e, c[0], l.name);
    } else {
      FlattenMember(e, c[1..], l);
      var j :| 0 <= j < |c[1..]| && Binds(e, c[1..][j], l.name);
      assert Binds(e, c[j + 1], l.name);
    }
  }

  /** Two arenas agree on every table of the chain from `t`. */
  predicate SameChain(e: Env, e2: Env, t: nat)
    requires Valid(e)
    decreases t
  {
    && t < |e.tables| && t < |e2.tables|
    && e2.tables[t] == e.tables[t]
    && (match e.tables[t].parent
        case None => true
        case Some(p) => SameChain(e, e2, p))
  }

  /** What a table can see depends only on the tables of its chain. */
  lemma {:induction false} SameChainSameView(e: Env, e2: Env, t: nat, name: string)
    requires Valid(e) && Valid(e2) && SameChain(e, e2, t)
    ensures Lookup(e2, t, name) == Lookup(e, t, name)
    ensures Chain(e2, t) == Chain(e, t)
    ensures FindClassTable(e2, t, name) == FindClassTable(e, t, name)
    decreases t
  {
    match e.tables[t].parent
    case None =>
    case Some(p) => SameChainSameView(e, e2, p, name);
  }

  /** Tables appended to an arena leave every older table's chain intact. */
  lemma {:induction false} SameChainAfterGrowth(e: Env, e2: Env, t: nat)
    requires Valid(e) && t < |e.tables|
    requires |e.tables| <= |e2.tables| && e2.tables[..|e.tables|] == e.tables
    ensures SameChain(e, e2, t)
    decreases t
  {
    assert e2.tables[t] == e2.tables[..|e.tables|][t];
    match e.tables[t].parent
    case None =>
    case Some(p) => SameChainAfterGrowth(e, e2, p);
  }

  /** A fresh table starts out seeing exactly what the table active before it
      saw, and every older table still sees what it saw. */
  lemma NewTableView(e: Env, l: Location, k: Layout, name: string)
    requires Valid(e)
    ensures var (e2, t) := NewOwnedTable(e, l, k);
      && Lookup(e2, t, name) == (match e.active case None => None case Some(a) => Lookup(e, a, name))
      && forall u :: 0 <= u < |e.tables| ==> Lookup(e2, u, name) == Lookup(e, u, name)
  {
    var (e2, t) := NewOwnedTable(e, l, k);
    forall u | 0 <= u < |e.tables|
      ensures Lookup(e2, u, name) == Lookup(e, u, name)
    {
      SameChainAfterGrowth(e, e2, u);
      SameChainSameView(e, e2, u, name);
    }
    assert !Binds(e2, t, name);
  }

  // ---------------------------------------------------------------------------
  // Adding symbols

  /** `Add(Location*)`: appends `loc` to table `t`'s list, with no check for a
      symbol of the same name. */
  function Add(e: Env, t: nat, loc: Location): (r: Env)
    requires Valid(e) && t < |e.tables|
    ensures Valid(r)
    ensures r.active == e.active && r.paramCursor == e.paramCursor && |r.tables| == |e.tables|
    ensures r.tables[t].symbols == e.tables[t].symbols + [loc]
    ensures r.tables[t] == e.tables[t].(symbols := r.tables[t].symbols)
    ensures forall u :: 0 <= u < |e.tables| && u != t ==> r.tables[u] == e.tables[u]
  {
    e.(tables := e.tables[t := e.tables[t].(symbols := e.tables[t].symbols + [loc])])
  }

  /** After `Add`, the table finds the new symbol unless it already held one of
      that name, which keeps winning: a duplicate is stored but never found. */
  lemma LookupAfterAdd(e: Env, t: nat, loc: Location)
    requires Valid(e) && t < |e.tables|
    ensures Lookup(Add(e, t, loc), t, loc.name)
         == (if Binds(e, t, loc.name) then Lookup(e, t, loc.name) else Some(loc))
  {
    var e2 := Add(e, t, loc);
    FirstBindingConcat(e.tables[t].symbols, [loc], loc.name);
    assert [loc][0].name == loc.name;
  }

  /** A table whose chain does not pass through `t` sees nothing of what is
      added to `t`: leaving a function's table hides its symbols again. */
  lemma {:induction false} LookupAfterAddElsewhere(e: Env, t: nat, loc: Location, u: nat, name: string)
    requires Valid(e) && t < |e.tables| && u < |e.tables|
    requires forall j :: 0 <= j < |Chain(e, u)| ==> Chain(e, u)[j] != t
    ensures Lookup(Add(e, t, loc), u, name) == Lookup(e, u, name)
  {
    SameChainOffPath(e, t, loc, u);
    SameChainSameView(e, Add(e, t, loc), u, name);
  }

  lemma {:induction false} SameChainOffPath(e: Env, t: nat, loc: Location, u: nat)
    requires Valid(e) && t < |e.tables| && u < |e.tables|
    requires forall j :: 0 <= j < |Chain(e, u)| ==> Chain(e, u)[j] != t
    ensures SameChain(e, Add(e, t, loc), u)
    decreases u
  {
    var c := Chain(e, u);
    assert c[0] == u;
    match e.tables[u].parent
    case None =>
    case Some(p) =>
      assert c[1..] == Chain(e, p);
      forall j | 0 <= j < |Chain(e, p)|
        ensures Chain(e, p)[j] != t
      {
        assert Chain(e, p)[j] == c[j + 1];
      }
      SameChainOffPath(e, t, loc, p);
  }

  /** The offset-allocating `Add(name, is_param, type)` on table `t`, whose
      segment (`GetSegment()`) is `seg`. A parameter takes the shared
      parameter cursor, anything else the table's own cursor. In the
      frame-relative segment a parameter then moves the parameter cursor up by
      4 and anything else moves the table cursor down by 4; in any other
      segment the table cursor moves up by 4 whatever was added. */
  function AddSlot(e: Env, t: nat, seg: Segment, name: string, isParam: bool, typ: Option<string>): (r: (Env, Location))
    requires Valid(e) && t < |e.tables|
    ensures Valid(r.0) && |r.0.tables| == |e.tables| && r.0.active == e.active
    ensures r.1 == Slot(seg, if isParam then e.paramCursor else e.tables[t].offset, name, typ)
    ensures r.0.tables[t].symbols == e.tables[t].symbols + [r.1]
    ensures r.0.tables[t].parent == e.tables[t].parent && r.0.tables[t].owner == e.tables[t].owner
    ensures forall u :: 0 <= u < |e.tables| && u != t ==> r.0.tables[u] == e.tables[u]
    ensures seg == FpRelative && isParam ==>
              r.0.paramCursor == r.1.offset + 4 && r.0.tables[t].offset == e.tables[t].offset
    ensures seg == FpRelative && !isParam ==>
              r.0.tables[t].offset == r.1.offset - 4 && r.0.paramCursor == e.paramCursor
    ensures seg != FpRelative ==>
              r.0.tables[t].offset == e.tables[t].offset + 4 && r.0.paramCursor == e.paramCursor
  {
    var tbl := e.tables[t];
    var loc := Slot(seg, if isParam then e.paramCursor else tbl.offset, name, typ);
    var offset := if seg == FpRelative then (if isParam then tbl.offset else tbl.offset - 4) else tbl.offset + 4;
    var cursor := if seg == FpRelative && isParam then e.paramCursor + 4 else e.paramCursor;
    var e1 := Env(e.tables[t := tbl.(offset := offset)], e.active, cursor);
    (Add(e1, t, loc), loc)
  }

  /** One request to the offset-allocating `Add`. */
  datatype Request = Request(name: string, isParam: bool, typ: Option<string>)

  /** Successive offset-allocating `Add`s to table `t`, in order: one slot per
      request, appended in request order, nothing else of the arena touched. */
  function AddAll(e: Env, t: nat, seg: Segment, reqs: seq<Request>): (r: (Env, seq<Location>))
    requires Valid(e) && t < |e.tables|
    ensures Valid(r.0) && |r.0.tables| == |e.tables| && r.0.active == e.active
    ensures forall u :: 0 <= u < |e.tables| && u != t ==> r.0.tables[u] == e.tables[u]
    ensures r.0.tables[t].parent == e.tables[t].parent && r.0.tables[t].owner == e.tables[t].owner
    ensures |r.1| == |reqs| && r.0.tables[t].symbols == e.tables[t].symbols + r.1
    ensures forall i :: 0 <= i < |reqs| ==> r.1[i].Slot? && r.1[i] == Slot(seg, r.1[i].offset, reqs[i].name, reqs[i].typ)
    decreases |reqs|
  {
    if |reqs| == 0 then (e, [])
    else
      var (e1, l) := AddSlot(e, t, seg, reqs[0].name, reqs[0].isParam, reqs[0].typ);
      var (e2, ls) := AddAll(e1, t, seg, reqs[1..]);
      (e2, [l] + ls)
  }

  /** In the frame-relative segment, every local handed out lies between the
      table cursor after and before the run, every parameter between the
      parameter cursor before and after: locals below the frame, parameters
      above it, and both cursors move only outward. */
  lemma {:induction false} FrameOffsetBounds(e: Env, t: nat, reqs: seq<Request>)
    requires Valid(e) && t < |e.tables|
    ensures var (e2, ls) := AddAll(e, t, FpRelative, reqs);
      && e2.tables[t].offset <= e.tables[t].offset && e.paramCursor <= e2.paramCursor
      && (forall i :: 0 <= i < |reqs| && !reqs[i].isParam ==> e2.tables[t].offset < ls[i].offset <= e.tables[t].offset)
      && (forall i :: 0 <= i < |reqs| && reqs[i].isParam ==> e.paramCursor <= ls[i].offset < e2.paramCursor)
    decreases |reqs|
  {
    if |reqs| > 0 {
      var (e1, l) := AddSlot(e, t, FpRelative, reqs[0].name, reqs[0].isParam, reqs[0].typ);
      FrameOffsetBounds(e1, t, reqs[1..]);
      var (e2, ls) := AddAll(e1, t, FpRelative, reqs[1..]);
      assert AddAll(e, t, FpRelative, reqs) == (e2, [l] + ls);
      forall i | 1 <= i < |reqs|
        ensures reqs[i] == reqs[1..][i - 1] && ([l] + ls)[i] == ls[i - 1]
      {
      }
    }
  }

  /** In the frame-relative segment, locals get strictly descending offsets
      and parameters strictly ascending ones, so no two locals (and no two
      parameters) of a run share an offset. */
  lemma {:induction false} FrameOffsetsDistinct(e: Env, t: nat, reqs: seq<Request>)
    requires Valid(e) && t < |e.tables|
    ensures var ls := AddAll(e, t, FpRelative, reqs).1;
      && (forall i, j :: 0 <= i < j < |reqs| && !reqs[i].isParam && !reqs[j].isParam ==> ls[j].offset < ls[i].offset)
      && (forall i, j :: 0 <= i < j < |reqs| && reqs[i].isParam && reqs[j].isParam ==> ls[i].offset < ls[j].offset)
    decreases |reqs|
  {
    if |reqs| > 0 {
      var (e1, l) := AddSlot(e, t, FpRelative, reqs[0].name, reqs[0].isParam, reqs[0].typ);
      FrameOffsetBounds(e1, t, reqs[1..]);
      FrameOffsetsDistinct(e1, t, reqs[1..]);
      var ls := AddAll(e1, t, FpRelative, reqs[1..]).1;
      assert AddAll(e, t, FpRelative, reqs).1 == [l] + ls;
      forall i | 1 <= i < |reqs|
        ensures reqs[i] == reqs[1..][i - 1] && ([l] + ls)[i] == ls[i - 1]
      {
      }
    }
  }

  /** In any other segment the table cursor advances by 4 per request, every
      non-parameter gets a strictly larger offset than the one before, and
      every parameter gets the parameter cursor, which never advances: two
      parameters added there share an offset. */
  lemma {:induction false} OtherSegmentOffsets(e: Env, t: nat, seg: Segment, reqs: seq<Request>)
    requires Valid(e) && t < |e.tables| && seg != FpRelative
    ensures var (e2, ls) := AddAll(e, t, seg, reqs);
      && e2.tables[t].offset == e.tables[t].offset + 4 * |reqs| && e2.paramCursor == e.paramCursor
      && (forall i :: 0 <= i < |reqs| && !reqs[i].isParam ==> e.tables[t].offset <= ls[i].offset < e2.tables[t].offset)
      && (forall i :: 0 <= i < |reqs| && reqs[i].isParam ==> ls[i].offset == e.paramCursor)
      && (forall i, j :: 0 <= i < j < |reqs| && !reqs[i].isParam && !reqs[j].isParam ==> ls[i].offset < ls[j].offset)
    decreases |reqs|
  {
    if |reqs| > 0 {
      var (e1, l) := AddSlot(e, t, seg, reqs[0].name, reqs[0].isParam, reqs[0].typ);
      OtherSegmentOffsets(e1, t, seg, reqs[1..]);
      var (e2, ls) := AddAll(e1, t, seg, reqs[1..]);
      assert AddAll(e, t, seg, reqs) == (e2, [l] + ls);
      forall i | 1 <= i < |reqs|
        ensures reqs[i] == reqs[1..][i - 1] && ([l] + ls)[i] == ls[i - 1]
      {
      }
    }
  }

  // ---------------------------------------------------------------------------
  // FindClassTable

  /** The table's owner exists and is named `name`. */
  predicate OwnedBy(e: Env, t: nat, name: string)
    requires t < |e.tables|
  {
    e.tables[t].owner.Some? && e.tables[t].owner.value.name == name
  }

  /** The table's owner exists and is named otherwise. */
  predicate OwnedByOther(e: Env, t: nat, name: string)
    requires t < |e.tables|
  {
    e.tables[t].owner.Some? && e.tables[t].owner.value.name != name
  }

  /** The first position of `c` whose table is not owned by another name than
      `name` (it is owned by `name`, or has no owner), or `|c|`. */
  function FirstStop(e: Env, c: seq<nat>, name: string): (k: nat)
    requires forall i :: 0 <= i < |c| ==> c[i] < |e.tables|
    ensures k <= |c|
    ensures forall j :: 0 <= j < k ==> OwnedByOther(e, c[j], name)
    ensures k < |c| ==> !OwnedByOther(e, c[k], name)
    decreases |c|
  {
    if |c| == 0 then 0
    else if !OwnedByOther(e, c[0], name) then 0
    else 1 + FirstStop(e, c[1..], name)
  }

  /** The first position of `c` whose table is owned by `name`, or `|c|`. */
  function FirstOwned(e: Env, c: seq<nat>, name: string): (k: nat)
    requires forall i :: 0 <= i < |c| ==> c[i] < |e.tables|
    ensures k <= |c|
    ensures forall j :: 0 <= j < k ==> !OwnedBy(e, c[j], name)
    ensures k < |c| ==> OwnedBy(e, c[k], name)
    decreases |c|
  {
    if |c| == 0 then 0
    else if OwnedBy(e, c[0], name) then 0
    else 1 + FirstOwned(e, c[1..], name)
  }

  /** `FindClassTable` as written: this table if its owner is named
      `typeName`, else the parent's answer, else NULL at the root. Reading the
      owner's name of a table without owner is a NULL dereference. */
  function FindClassTable(e: Env, t: nat, typeName: string): (r: Result<Option<nat>>)
    requires Valid(e) && t < |e.tables|
    ensures r.Ok? && r.value.Some? ==> r.value.value <= t && OwnedBy(e, r.value.value, typeName)
    ensures r.Ok? && r.value.None? ==> OwnedByOther(e, t, typeName)
    decreases t
  {
    match e.tables[t].owner
    case None => Crash(NoClassName)
    case Some(l) =>
      if l.name == typeName then Ok(Some(t))
      else match e.tables[t].parent
        case None => Ok(None)
        case Some(p) => FindClassTable(e, p, typeName)
  }

  lemma ChainStep(e: Env, t: nat)
    requires Valid(e) && t < |e.tables| && e.tables[t].parent.Some?
    ensures Chain(e, t) == [t] + Chain(e, e.tables[t].parent.value)
    ensures Chain(e, t)[1..] == Chain(e, e.tables[t].parent.value)
  {
  }

  /** `FindClassTable` is decided by the first table of the chain that is not
      owned by some other name: owned by `typeName`, it is the answer; without
      owner, the search crashes; and with no such table the answer is NULL. */
  lemma {:induction false} FindClassTableStops(e: Env, t: nat, typeName: string)
    requires Valid(e) && t < |e.tables|
    ensures var c := Chain(e, t); var k := FirstStop(e, c, typeName);
      FindClassTable(e, t, typeName)
        == if k == |c| then Ok(None)
           else if e.tables[c[k]].owner.None? then Crash(NoClassName)
           else Ok(Some(c[k]))
    decreases t
  {
    match e.tables[t].parent
    case None =>
      assert Chain(e, t) == [t];
    case Some(p) =>
      ChainStep(e, t);
      var c := Chain(e, t);
      if OwnedByOther(e, t, typeName) {
        FindClassTableStops(e, p, typeName);
        assert FirstStop(e, c, typeName) == 1 + FirstStop(e, Chain(e, p), typeName);
      } else {
        assert FirstStop(e, c, typeName) == 0;
      }
  }

  /** `FindClassTable` as evidently intended: a table without owner (the root)
      simply does not match, and NULL means no table of the chain is owned by
      `typeName`. */
  function FindClassTableChecked(e: Env, t: nat, typeName: string): (r: Option<nat>)
    requires Valid(e) && t < |e.tables|
    ensures r.Some? ==> r.value <= t && OwnedBy(e, r.value, typeName)
    decreases t
  {
    if OwnedBy(e, t, typeName) then Some(t)
    else match e.tables[t].parent
      case None => None
      case Some(p) => FindClassTableChecked(e, p, typeName)
  }

  /** The corrected search answers the nearest table of the chain owned by
      `typeName`, and NULL exactly when the chain has none. */
  lemma {:induction false} FindClassTableCheckedNearest(e: Env, t: nat, typeName: string)
    requires Valid(e) && t < |e.tables|
    ensures var c := Chain(e, t); var k := FirstOwned(e, c, typeName);
      FindClassTableChecked(e, t, typeName) == if k == |c| then None else Some(c[k])
    decreases t
  {
    match e.tables[t].parent
    case None =>
      assert Chain(e, t) == [t];
    case Some(p) =>
      ChainStep(e, t);
      var c := Chain(e, t);
      if !OwnedBy(e, t, typeName) {
        FindClassTableCheckedNearest(e, p, typeName);
        assert FirstOwned(e, c, typeName) == 1 + FirstOwned(e, Chain(e, p), typeName);
      }
  }

  /** In an arena whose root is its only table without owner and without
      parent (every arena `Program::Emit` builds from scratch), the search as
      written never answers NULL: where the corrected search answers NULL it
      dereferences the root's NULL owner instead, and otherwise the two agree. */
  lemma {:induction false} FindClassTableNeverNull(e: Env, t: nat, typeName: string)
    requires Valid(e) && SingleRooted(e) && OwnedBelowRoot(e) && t < |e.tables|
    ensures FindClassTable(e, t, typeName) != Ok(None)
    ensures FindClassTableChecked(e, t, typeName).None? ==> FindClassTable(e, t, typeName) == Crash(NoClassName)
    ensures FindClassTableChecked(e, t, typeName).Some? ==> FindClassTable(e, t, typeName) == Ok(FindClassTableChecked(e, t, typeName))
    decreases t
  {
    if t > 0 && !OwnedBy(e, t, typeName) {
      FindClassTableNeverNull(e, e.tables[t].parent.value, typeName);
    }
  }
}
