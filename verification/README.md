# Symbol-table tree and declaration walk of a teaching-language compiler back end

This project models the part of the compiler's code-generation pass that builds
the tree of symbol tables. That means two things.

The `SymbolTable` class (`symbol_table.cc`, `symbol_table.h`):
- Each table has a parent link, an optional owner `Location` (the class or
  function it belongs to), an ordered list of symbol `Location`s and an offset
  cursor.
- One process-wide `active` cursor names the current table.
- The two constructors hang each new table under the active table and make it
  active.
- `Lookup` searches a table's own list, then its parent's.
- The offset-allocating `Add` hands out frame or global offsets in steps of 4.
- `FindClassTable` walks up the parents to the table owned by a given name.

The `Emit` walk over declarations and statements (`ast_decl.cc`,
`ast_stmt.cc`):
- `Program::Emit` builds the global table.
- `ClassDecl::Emit` and `FnDecl::Emit` each build a table of their own, make
  it active, walk their members (or formals and body), and make its parent
  active again.
- `VarDecl::Emit` appends the variable's `Location` to the active table.
- Statements only recurse, so a block's variables land in the enclosing
  function's table.

How the model is built:
- The tables live in an arena (`SymbolTable.Env`), a sequence of immutable
  `Table` records addressed by index. A parent link is an index.
- The arena also holds the active cursor and the parameter cursor. The source
  keeps the parameter cursor in a function-local `static` inside the
  offset-allocating `Add`, so it is shared by all tables.
- Every `Emit` is a pure function from a `Walk` (the arena plus the
  expressions visited so far, in order) to a `Result`.
- A NULL dereference in the source becomes `Crash` with a `Fault` saying which
  pointer was NULL:
  - `NoActiveTable`: `SymbolTable::active` is NULL when something is added to
    it.
  - `MissingFunctionBody`: a function prototype reaches `body->Emit()`.
  - `MissingElseBody`: an `if` without an else reaches `elseBody->Emit()`.
  - `NoClassName`: `FindClassTable` reads the name of a table without owner.
- Each call of the code generator's `GenLoadLabel(name)` returns a new
  `Location` object. The model gives it the location `Label(name, n)`, where
  `n` counts the calls made so far in the walk (`Walk.issued`). Two labels are
  the same object exactly when their serials are equal. `Lookup` itself only
  compares names.
- The offset constants `OffsetToFirstGlobal`, `OffsetToFirstLocal` and
  `OffsetToFirstParam` are the fields of a `Layout` parameter.
- A table's segment (`GetSegment()`) is a parameter of the offset-allocating
  `Add`.

Modules:
- `Base`: locations, segments, faults, results.
- `SymbolTable`: the table operations.
- `Ast`: the syntax tree.
- `Emission`: the walk state, `VarDecl::Emit`, expression visits.
- `Statements`: `ast_stmt.cc`'s statements.
- `Declarations`: `ast_decl.cc`.
- `Programs`: `Program::Emit` and whole compilations.

Several contracts are stated against an independent reference definition:
- `DeclaredLabels`, `Visits` and `StmtSafe` for statements.
- `ActiveLabels`, `TablesCreated`, `DeclVisits` and `DeclSafe` for
  declarations.
- `Chain` and `Flatten` for lookups.
- `FirstStop` and `FirstOwned` for the class-table search.

The frame predicate `Emission.Grows` states everything a walk that returns
normally may change: which tables are added, which table gets which symbols,
and that the active and parameter cursors end where they started.

## Model

| member | source | states |
|---|---|---|
| SymbolTable.Initial | symbol_table.cc:5-52 | before any table is built there is no table and none is active, and the shared parameter cursor starts at the first parameter offset |
| SymbolTable.NewGlobalTable | symbol_table.cc:7-17 | the new table is appended without owner, with no symbols and its offset at the first global offset; its parent is the table active before (none when none was), it becomes active, and no older table changes |
| SymbolTable.NewOwnedTable | symbol_table.cc:19-30 | as above, but owned by the given location and with its offset at the first local offset |
| SymbolTable.SwitchActive | symbol_table.cc:81-83 | only the active cursor changes; tables and the parameter cursor are untouched |
| SymbolTable.Chain | symbol_table.h:20 | following parent links from a table visits strictly older tables and ends at a table without parent |
| SymbolTable.ChainEndsAtRoot | symbol_table.h:3-5 | in an arena with one parentless table (table 0), every parent chain ends at it |
| SymbolTable.LocalIndex | symbol_table.cc:35-41 | the position found is the first symbol of the list with that name; none means no symbol has that name |
| SymbolTable.Lookup | symbol_table.cc:34-48 | any answer has the looked-up name, and a name the table binds itself is answered from its own list |
| SymbolTable.LookupIsFirstInChain | symbol_table.cc:34-48 | `Lookup` equals the first match in the concatenation of the symbol lists along the parent chain |
| SymbolTable.LookupNearest | symbol_table.cc:36-44 | shadowing: the nearest table of the chain that binds the name decides the answer, whatever the tables above it bind |
| SymbolTable.LookupMiss | symbol_table.cc:42-47 | `Lookup` answers NULL exactly when no table of the chain binds the name |
| SymbolTable.SameChainSameView | symbol_table.cc:34-79 | what `Lookup` and `FindClassTable` answer from a table depends only on the tables of its chain |
| SymbolTable.NewTableView | symbol_table.cc:19-30 | a fresh table sees exactly what the previously active table saw, and every older table still sees what it saw |
| SymbolTable.Add | symbol_table.h:30 | exactly one location is appended at the end of the table's list; earlier entries, other tables and both cursors are unchanged |
| SymbolTable.LookupAfterAdd | symbol_table.cc:66 | with no duplicate check, the added location is found unless the table already bound its name, in which case the older binding keeps winning |
| SymbolTable.LookupAfterAddElsewhere | symbol_table.cc:42-44 | a table whose chain does not pass through the table added to sees no change |
| SymbolTable.AddSlot | symbol_table.cc:51-67 | a parameter takes the shared parameter cursor and anything else the table's cursor; frame-relative: a parameter moves the parameter cursor up 4, anything else the table cursor down 4; other segments: the table cursor moves up 4; the slot is appended with its name and type |
| SymbolTable.AddAll | symbol_table.cc:51-67 | successive adds append one slot per request, in request order, with the requested name and type, in the table's segment, touching no other table |
| SymbolTable.FrameOffsetBounds | symbol_table.cc:54-59 | frame-relative: every local lies between the table cursor after and before, every parameter between the parameter cursor before and after, and both cursors only move outward |
| SymbolTable.FrameOffsetsDistinct | symbol_table.cc:54-59 | frame-relative: locals get strictly descending offsets and parameters strictly ascending ones, so no two locals or two parameters share an offset |
| SymbolTable.OtherSegmentOffsets | symbol_table.cc:52-62 | other segments: the table cursor advances 4 per request, locals get strictly ascending offsets in that range, and every parameter gets the same unadvanced parameter cursor |
| SymbolTable.FindClassTable | symbol_table.cc:69-79 | a table found is no newer than the start and owned by the name; a NULL answer means the start table is owned by another name |
| SymbolTable.FindClassTableStops | symbol_table.cc:69-79 | the first chain table not owned by another name decides: owned by the name, it is the answer; without owner, the search crashes; if there is none, the answer is NULL |
| SymbolTable.FindClassTableChecked | symbol_table.cc:69-79 | corrected search: a table found is owned by the name and no newer than the start |
| SymbolTable.FindClassTableCheckedNearest | symbol_table.cc:69-79 | the corrected search answers the nearest chain table owned by the name, and NULL exactly when there is none |
| SymbolTable.FindClassTableNeverNull | symbol_table.cc:8 | if only the root lacks a parent and an owner, the search as written never answers NULL; where the corrected one answers NULL, it crashes, and otherwise both agree |
| Emission.EmitExprs | ast_stmt.cc:103-105 | the arguments are visited in list order, and the tables are untouched |
| Emission.AddToActive | ast_decl.cc:30 | adding to the active table succeeds exactly when a table is active, appending to that table only |
| Emission.EmitVar | ast_decl.cc:23-34 | the walk returns normally exactly when a table is active; then exactly one location, named after the variable, is appended to it, and it stays active |
| Emission.VarLabelsAt | ast_decl.cc:26 | a list of variables gets one label per variable, named after it, with consecutive serials in list order |
| Emission.LookupIssued | symbol_table.cc:34-48 | every label a lookup can answer was issued before the current count, when every label in the arena was |
| Emission.VarDeclVisible | ast_decl.cc:26-30 | after the variable is declared, lookup from the active table finds the new label, unless that table already bound the name; and it finds the new label only if the table did not bind the name, since an older label cannot carry the new serial |
| Emission.VarsIssued | ast_decl.cc:26 | walking a list of variables keeps every label in the arena older than the call count |
| Emission.EmitVars | ast_stmt.cc:45 | a list of variables appends their locations to the active table in list order; this needs an active table unless the list is empty |
| Emission.WalkView | ast_decl.cc:94-100 | after a walk, every older table sees only what the walk appended to the active table, never what it put into tables it built |
| Statements.EmitStmt | ast_stmt.cc:67-105 | a statement walk returns normally exactly when every `if` it reaches has an else branch and no block variable is reached without an active table; then it appends its block variables to the active table, builds no table, keeps the active table and visits its expressions in order |
| Statements.EmitBlock | ast_stmt.cc:44-48 | a block appends its variables before its statements' variables, into the active table |
| Statements.EmitIf | ast_stmt.cc:84-88 | an `if` visits the test, then the then branch, then the else branch, and crashes when there is no else branch |
| Statements.EmitStmts | ast_stmt.cc:46 | statement lists are walked in order, with the same guarantees as a single statement |
| Statements.DeclaredLabelsConsecutive | ast_stmt.cc:44-48 | the labels a statement declares are as many as the calls it makes, with consecutive serials |
| Statements.StmtIssued | ast_stmt.cc:44-105 | walking a statement keeps every label in the arena older than the call count |
| Statements.LoopBodiesSkipped | ast_stmt.cc:67-76 | a `for` visits only its init, then its step; a `while` visits nothing; neither walks its body |
| Declarations.EnterLeave | ast_decl.cc:94-100 | building a table, walking with it active and making its parent active again leaves exactly the new table filled and every older table as it was |
| Declarations.EmitDecl | ast_decl.cc:23-102 | a declaration walk returns normally exactly when the declaration is safe; then it appends its locations to the table active on entry, builds one table per class and function, changes no other older table and ends with the entry table active |
| Declarations.EmitClass | ast_decl.cc:46-61 | the class table hangs under the entry table, owned by the class; it holds the class's own location and then the members' locations; the entry table is not changed and is active again afterwards; the class's label is the first of one call per class and member declaration |
| Declarations.EmitFn | ast_decl.cc:82-102 | the function's location goes into the entry table; its table hangs under the entry table, owned by the function, and holds the formals then the body's variables; a prototype crashes; the entry table is active again; `main` is like any other name; one label is issued for the function, then one per formal, then one per body variable |
| Declarations.FnScope | ast_decl.cc:93-100 | inside the function, lookup finds formals and locals first, then what the entry table sees; a formal or local that is found is a different object from anything the entry table sees; from any older table they are invisible |
| Declarations.FnFresh | ast_decl.cc:92-97 | a formal's or local's label is never the object that lookup from the entry table answers, because it is issued later |
| Declarations.DeclIssued | ast_decl.cc:49-93 | walking a declaration keeps every label in the arena, owners included, older than the call count |
| Declarations.FnIssued | ast_decl.cc:92-98 | walking a function keeps every label, its own owner label included, older than the call count |
| Declarations.InterfacePrototypeCrashes | ast_decl.cc:68-72 | an interface walks its members in the entry table, so a member prototype crashes the walk |
| Declarations.EmitDecls | ast_decl.cc:58 | declaration lists are walked in order, with the same guarantees as a single declaration |
| Programs.EmitProgram | ast_stmt.cc:24-37 | builds a table without owner under the active table and walks the declarations in order with it active; it ends active, holding exactly the top-level variables' and functions' locations |
| Programs.Compile | ast_stmt.cc:32-33 | a whole compilation returns normally exactly when every top-level declaration is safe |
| Programs.CompiledTree | ast_stmt.cc:32-33 | a compiled program's tables form one tree rooted at the global table: the root is active, it is the only table without parent or owner, the table count is one per class and function plus one, and every chain ends at the root |
| Programs.CompiledIssued | ast_decl.cc:26-92 | a compilation calls `GenLoadLabel` once per variable, formal, class and function it reaches, and every label in the compiled arena, owners included, comes from one of those calls |
| Programs.CompiledFindClassTable | symbol_table.cc:69-79 | in a compiled program, `FindClassTable` as written never answers NULL; it crashes wherever the corrected search answers NULL |
| Programs.EmptyProgramFindClassTable | symbol_table.cc:8 | in the empty program, searching the global table for `A` crashes as written, and the corrected search answers NULL |
| Programs.ExampleTables | ast_decl.cc:46-61 | `class A { int x; void m(int x) {} }` leaves the global table empty, gives a class table holding `A`, `x` and `m` in that order, and gives `m` a table under the class table, owned by `m`, holding its formal `x` |
| Programs.ExampleLookups | ast_decl.cc:94-98 | in that example, `x` from `m`'s table is the formal, a different object from the field `x` that the class table sees, and the global table does not see `x` |

## Left out

- Expressions (`ast_expr.cc`): their `Emit`s never touch the tables. They are stubs, child traversals or error reports. An expression is an opaque `Expr` that the walk records as visited.
- The code generator: `GenLabel`, `GenLoadLabel`, `DoFinalCodeGen` and the instruction stream are not part of this model. `GenLoadLabel(name)` is the location `Label(name, n)` with a fresh serial `n`. The offset constants and `GetSegment()` are parameters.
- `Identifier::Emit`, `Type::Emit`, `NamedType::Emit`: not part of this model. They are taken to leave the tables alone, so a class's base and interface names are walked without effect.
- `Declare()` and `EmitFormal` (`ast_decl.h`): declared but not defined, so not modelled.
- `DebugSymbolTable`, `PrintDebug`, `ReportError`: diagnostics with no effect on the tables.
- Pointer identity of `Slot` locations: two slots with the same name, segment, offset and type are equal here. Labels carry serials, so their identity is modelled. No `Emit` calls the offset-allocating `Add` (symbol_table.cc:51-67), so no slot ever enters a table built by the walk.
- The offset-allocating `Add` is modelled (`SymbolTable.AddSlot`), but no `Emit` in these files calls it. Formals go through `VarDecl::Emit` like any other variable. So in a compiled arena every table's offset stays at its start value, and the parameter cursor stays at the first parameter offset.
- `Add(Location*)` is declared in `symbol_table.h` but defined in none of the files. It is modelled the way its callers use it: append to the list.
- `symbol_table.h` declares no `offset` field, no `GetSegment` and no `Add(name, is_param, type)`, although `symbol_table.cc` uses all three. The header declares `FindClassTable(char *)` (symbol_table.h:31), and symbol_table.cc:69 defines it with `const char *`. The model follows `symbol_table.cc`.
- `WhileStmt::Emit` is not defined in the files. `While` is taken to inherit `LoopStmt::Emit`, which walks nothing.
- `BreakStmt` is not modelled: it is not defined in the files.
- Behaviours of the code that are kept as written, though a reader might expect otherwise:
  - There is no duplicate-name check. A second binding of a name is stored but never found.
  - The parameter cursor is shared by all tables, not kept per table.
  - A class's table does not chain to its base class's table.
  - The class's own location goes into the class table, not the enclosing one.
  - `FindClassTable` reads the owner of the ownerless global table.
  - Block scoping is flattened into the enclosing table.
- Integer width: offsets are unbounded integers. The source's `int` cursors could only wrap after about 500 million adds.

## Findings

| source | as written | input that shows it | evidently intended | confidence | as-written member | corrected member |
|---|---|---|---|---|---|---|
| symbol_table.cc:69-79 | `FindClassTable` compares `type_name` with `class_name->GetName()` before looking at the parent, and the global table's `class_name` is NULL (symbol_table.cc:8) | the empty program, searching from the global table for `A`; more generally any search for a name that no table on the chain owns | a table without owner does not match, and the search answers NULL at the root | not executed | Programs.EmptyProgramFindClassTable | SymbolTable.FindClassTableCheckedNearest |
