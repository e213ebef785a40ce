/** The syntax tree the walk runs over: declarations, statements, and
    expressions, which the walk only hands to their own `Emit`. */
module Ast {
  import opened Base

  /** An expression node. Expression `Emit`s never touch the symbol tables,
      so the walk only records which expressions it visits, in order. */
  datatype Expr = Expr(text: string)

  /** A variable declaration: its name and its declared type's name. */
  datatype Var = Var(name: string, typ: string)

  /** Statements. `While` and `For` are the two loop statements; `If` may lack
      its else branch. */
  datatype Stmt =
    | Block(decls: seq<Var>, stmts: seq<Stmt>)
    | While(test: Expr, body: Stmt)
    | For(init: Expr, test: Expr, step: Expr, body: Stmt)
    | If(test: Expr, thenBody: Stmt, elseBody: Option<Stmt>)
    | Return(expr: Expr)
    | Print(args: seq<Expr>)

  /** Declarations. A class names the class it extends (`base`) and the
      interfaces it implements. A function whose `body` is absent is a
      prototype (as in an interface). */
  datatype Decl =
    | VarDecl(v: Var)
    | ClassDecl(name: string, base: Option<string>, interfaces: seq<string>, members: seq<Decl>)
    | InterfaceDecl(name: string, members: seq<Decl>)
    | FnDecl(name: string, returnType: string, formals: seq<Var>, body: Option<Stmt>)
}
