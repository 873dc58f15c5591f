/**
 * The part of Go's syntax tree (go/ast) that registering a precompile
 * touches. Nodes the code updates in place are classes: a composite
 * literal's element list, a general declaration's spec list and the file's
 * declaration list. A value spec's names and values are never reassigned
 * to anything new (the one write stores back the pointer it read), so they
 * are constants.
 */
module GoAst {

  /** The keyword of a general declaration (go/token). */
  datatype Token = Import | Const | Type | Var

  /** Expressions, as far as they matter here: a basic literal keeps its source text. */
  datatype Expr =
    | BasicLit(text: string)
    | KeyValue(key: Expr, value: Expr)
    | Ident(name: string)

  /** `T{elts...}`: the map literal whose element list gets the new entry. */
  class CompositeLit {
    var elts: seq<Expr>

    constructor (elts: seq<Expr>)
      ensures this.elts == elts
    {
      this.elts := elts;
    }
  }

  /** A value bound in a value spec: a composite literal or some other expression. */
  datatype Value = Composite(lit: CompositeLit) | OtherValue(e: Expr)

  /** `var names... = values...` */
  class ValueSpec {
    const names: seq<string>
    const values: seq<Value>

    constructor (names: seq<string>, values: seq<Value>)
      ensures this.names == names && this.values == values
    {
      this.names := names;
      this.values := values;
    }
  }

  datatype Spec =
    | ImportSpec(path: string)
    | ValueSpecNode(vs: ValueSpec)
    | TypeSpec(name: string)

  /** `import (...)`, `var (...)`, `const (...)` or `type (...)`. */
  class GenDecl {
    const tok: Token
    var specs: seq<Spec>

    constructor (tok: Token, specs: seq<Spec>)
      ensures this.tok == tok && this.specs == specs
    {
      this.tok := tok;
      this.specs := specs;
    }
  }

  datatype Decl = GenDeclNode(g: GenDecl) | FuncDecl(name: string)

  /** A parsed source file: its top-level declarations in order. */
  class File {
    var decls: seq<Decl>

    constructor (decls: seq<Decl>)
      ensures this.decls == decls
    {
      this.decls := decls;
    }
  }

  /** A node handed to an ast.Inspect visitor. */
  datatype Node =
    | FileNode(f: File)
    | DeclNode(d: Decl)
    | SpecNode(s: Spec)
    | ExprNode(e: Expr)

  /** The general declarations among `decls`. */
  function GenDecls(decls: seq<Decl>): set<GenDecl> {
    set i | 0 <= i < |decls| && decls[i].GenDeclNode? :: decls[i].g
  }

  predicate IsImportDecl(d: Decl) {
    d.GenDeclNode? && d.g.tok == Import
  }

  /** The position of the first import declaration, or -1. */
  function FirstImport(decls: seq<Decl>): (r: int)
    ensures -1 <= r < |decls|
    ensures r == -1 <==> forall j :: 0 <= j < |decls| ==> !IsImportDecl(decls[j])
    ensures r >= 0 ==> IsImportDecl(decls[r]) && forall j :: 0 <= j < r ==> !IsImportDecl(decls[j])
    decreases |decls|
  {
    if decls == [] then -1
    else if IsImportDecl(decls[0]) then 0
    else
      var r := FirstImport(decls[1..]);
      if r < 0 then -1 else r + 1
  }

  /** The composite literals bound in a value spec. */
  function LitsOf(vs: ValueSpec): set<CompositeLit> {
    set i | 0 <= i < |vs.values| && vs.values[i].Composite? :: vs.values[i].lit
  }

  /** The value specs among a declaration's specs, in order. */
  function ValueSpecsIn(specs: seq<Spec>): seq<ValueSpec>
    decreases |specs|
  {
    if specs == [] then []
    else (if specs[0].ValueSpecNode? then [specs[0].vs] else []) + ValueSpecsIn(specs[1..])
  }

  /** The value specs of the top-level declarations, in the order ast.Inspect visits them. */
  function TopValueSpecs(decls: seq<Decl>): seq<ValueSpec>
    reads GenDecls(decls)
    decreases |decls|
  {
    if decls == [] then []
    else
      assert GenDecls(decls[1..]) <= GenDecls(decls) by {
        forall g | g in GenDecls(decls[1..]) ensures g in GenDecls(decls) {
          var i :| 0 <= i < |decls[1..]| && decls[1..][i].GenDeclNode? && decls[1..][i].g == g;
          assert decls[i + 1].g == g;
        }
      }
      (if decls[0].GenDeclNode? then ValueSpecsIn(decls[0].g.specs) else []) + TopValueSpecs(decls[1..])
  }

  lemma {:induction false} ValueSpecsInAllocated(specs: seq<Spec>)
    requires forall i :: 0 <= i < |specs| ==> allocated(specs[i])
    ensures forall k :: 0 <= k < |ValueSpecsIn(specs)| ==> allocated(ValueSpecsIn(specs)[k])
    decreases |specs|
  {
    if specs != [] {
      ValueSpecsInAllocated(specs[1..]);
    }
  }

  /** The value specs reached from a file's declarations exist in the current heap. */
  lemma {:induction false} TopValueSpecsAllocated(decls: seq<Decl>)
    ensures forall k :: 0 <= k < |TopValueSpecs(decls)| ==> allocated(TopValueSpecs(decls)[k])
    decreases |decls|
  {
    if decls != [] {
      TopValueSpecsAllocated(decls[1..]);
      if decls[0].GenDeclNode? {
        ValueSpecsInAllocated(decls[0].g.specs);
      }
    }
  }
}
