/** Values shared by every part of the model: optional values, the storage
    locations the symbol tables hold, the frame-layout constants of the code
    generator, and the ways the walk can crash. */
module Base {

  /** A pointer that may be NULL. */
  datatype Option<+T> = None | Some(value: T)

  /** The storage segments a location can live in. Only `FpRelative` is
      distinguished by the symbol table; every other segment behaves alike. */
  datatype Segment = FpRelative | GpRelative

  /** A `Location` as the symbol tables see it. `Slot` is what the
      offset-allocating `Add` builds (segment, offset, name, optional type);
      `Label` is what the code generator's `GenLoadLabel` hands back for a
      declared name: a fresh object each call, told apart from every other
      one by its `serial`, the number of calls before it. */
  datatype Location =
    | Slot(segment: Segment, offset: int, name: string, typ: Option<string>)
    | Label(name: string, serial: nat)

  /** The code generator's `OffsetToFirstGlobal`, `OffsetToFirstLocal` and
      `OffsetToFirstParam`, whose values live outside this model. */
  datatype Layout = Layout(firstGlobal: int, firstLocal: int, firstParam: int)

  /** The NULL dereferences the source performs on some inputs. */
  datatype Fault =
    | NoActiveTable        // `SymbolTable::active` is NULL when a declaration adds to it
    | NoClassName          // `FindClassTable` reads the name of a table without an owner
    | MissingFunctionBody  // `FnDecl::Emit` calls `body->Emit()` on a prototype
    | MissingElseBody      // `IfStmt::Emit` calls `elseBody->Emit()` without an else

  /** Either a value or the crash that prevented it. */
  datatype Result<+T> = Ok(value: T) | Crash(fault: Fault)
}
