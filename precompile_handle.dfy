/**
 * Registering a precompile in op-geth's core/vm/contracts.go
 * (cmd/precompile/handle.go): one entry appended to the map literal bound
 * to `PrecompiledContractsCancun`, then one import spec for the new package.
 */
module PrecompileHandle {
  import opened GoAst
  import opened StrConv
  import opened Results

  /** What registering needs: the address text, the struct name and the package name. */
  datatype Handle = Handle(address: string, structName: string, packageName: string)

  function NewHandle(address: string, structName: string, packageName: string): Handle {
    Handle(address, structName, packageName)
  }

  /** The variable whose map literal gets the entry. */
  function MapName(): string {
    "PrecompiledContractsCancun"
  }

  function KeyPrefix(): string {
    "common.BytesToAddress([]byte{"
  }

  /** The new map entry, `common.BytesToAddress([]byte{<address>}): &<package>.<Struct>{}`. */
  function MapItem(h: Handle): Expr {
    KeyValue(BasicLit(KeyPrefix() + h.address + "})"), BasicLit("&" + h.packageName + "." + h.structName + "{}"))
  }

  /** The import spec: the package name as a quoted string literal. */
  function ImportFor(h: Handle): Spec {
    ImportSpec(Quote(h.packageName))
  }

  /** The import spec names the package: its path reads back as the package name. */
  lemma ImportNamesPackage(h: Handle)
    ensures ImportFor(h).path[0] == '"' && Unquote(ImportFor(h).path) == Some(h.packageName)
  {
    UnquoteQuote(h.packageName);
  }

  /** A visitor either lets the traversal go on or the program panics. */
  datatype Outcome = Continue | Panic

  // ---------------------------------------------------------------------
  // addImport
  // ---------------------------------------------------------------------

  /**
   * Appends the import spec to the first import declaration, or puts a new
   * import declaration holding just that spec in front of the others. It
   * always reports success and never looks for an existing spec.
   */
  method AddImport(h: Handle, file: File) returns (ok: bool)
    modifies file, GenDecls(file.decls)
    ensures ok
    ensures var i := FirstImport(old(file.decls));
      i >= 0 ==> file.decls == old(file.decls) && file.decls[i].g.specs == old(file.decls[i].g.specs) + [ImportFor(h)]
    ensures FirstImport(old(file.decls)) < 0 ==>
      |file.decls| == |old(file.decls)| + 1 && file.decls[1..] == old(file.decls) &&
      IsImportDecl(file.decls[0]) && fresh(file.decls[0].g) && file.decls[0].g.specs == [ImportFor(h)]
    ensures var i := FirstImport(old(file.decls));
      forall g :: g in old(GenDecls(file.decls)) && (i < 0 || g != old(file.decls)[i].g) ==> g.specs == old(g.specs)
  {
    var spec := ImportFor(h);
    var importDecl: GenDecl? := null;
    var i := 0;
    while i < |file.decls|
      invariant 0 <= i <= |file.decls|
      invariant forall j :: 0 <= j < i ==> !IsImportDecl(file.decls[j])
    {
      if file.decls[i].GenDeclNode? && file.decls[i].g.tok == Import {
        importDecl := file.decls[i].g;
        break;
      }
      i := i + 1;
    }
    if importDecl == null {
      importDecl := new GenDecl(Import, []);
      file.decls := [GenDeclNode(importDecl)] + file.decls;
    }
    importDecl.specs := importDecl.specs + [spec];
    return true;
  }

  /** Nothing stops a second call from adding the same spec again. */
  method AddImportTwice(h: Handle, file: File)
    modifies file, GenDecls(file.decls)
    ensures var i := FirstImport(file.decls);
      i >= 0 &&
      file.decls[i].g.specs ==
        (if FirstImport(old(file.decls)) >= 0 then old(file.decls[FirstImport(file.decls)].g.specs) else [])
        + [ImportFor(h), ImportFor(h)]
  {
    var first := AddImport(h, file);
    var second := AddImport(h, file);
  }

  // ---------------------------------------------------------------------
  // addMapItem
  // ---------------------------------------------------------------------

  /** The name at `i` is the map's, but there is no value at `i` or it is not a composite
      literal: the index or the type assertion panics. */
  predicate BadSlot(vs: ValueSpec, i: nat)
    requires i < |vs.names|
  {
    vs.names[i] == MapName() && (i >= |vs.values| || !vs.values[i].Composite?)
  }

  /** The name at `i` is the map's and its value is a composite literal. */
  predicate GoodSlot(vs: ValueSpec, i: nat)
    requires i < |vs.names|
  {
    vs.names[i] == MapName() && i < |vs.values| && vs.values[i].Composite?
  }

  function StopFrom(vs: ValueSpec, i: nat): (r: nat)
    requires i <= |vs.names|
    ensures i <= r <= |vs.names|
    ensures forall j :: i <= j < r ==> !BadSlot(vs, j)
    ensures r < |vs.names| ==> BadSlot(vs, r)
    decreases |vs.names| - i
  {
    if i == |vs.names| then i else if BadSlot(vs, i) then i else StopFrom(vs, i + 1)
  }

  /** Where the loop over the names ends: at the first bad slot, or after the last name. */
  function Stop(vs: ValueSpec): (r: nat)
    ensures r <= |vs.names|
    ensures forall j :: 0 <= j < r ==> !BadSlot(vs, j)
    ensures r < |vs.names| ==> BadSlot(vs, r)
  {
    StopFrom(vs, 0)
  }

  predicate Panics(vs: ValueSpec) {
    Stop(vs) < |vs.names|
  }

  /** How many of the first `n` names are the map's name with `l` as their literal:
      the number of entries `l` receives from them. */
  function HitCount(vs: ValueSpec, n: nat, l: CompositeLit): nat
    requires n <= |vs.names|
    decreases n
  {
    if n == 0 then 0
    else HitCount(vs, n - 1, l) + (if GoodSlot(vs, n - 1) && vs.values[n - 1].lit == l then 1 else 0)
  }

  /** `n` copies of `x`. */
  function Repeat(x: Expr, n: nat): (r: seq<Expr>)
    ensures |r| == n && forall k :: 0 <= k < n ==> r[k] == x
  {
    if n == 0 then [] else Repeat(x, n - 1) + [x]
  }

  lemma {:induction false} RepeatAdd(x: Expr, a: nat, b: nat)
    ensures Repeat(x, a) + Repeat(x, b) == Repeat(x, a + b)
    decreases b
  {
    if b > 0 {
      RepeatAdd(x, a, b - 1);
    }
  }

  predicate IsValueSpec(node: Node) {
    node.SpecNode? && node.s.ValueSpecNode?
  }

  /** The literals an edit of `node` may touch. */
  function NodeLits(node: Node): set<CompositeLit> {
    if IsValueSpec(node) then LitsOf(node.s.vs) else {}
  }

  /**
   * The visitor: a node other than a value spec is left alone. For a value
   * spec, every name equal to the map's name, in order, gets the entry
   * appended to the composite literal at the same index, until a name whose
   * value is missing or not a composite literal panics. A literal bound
   * under several such names gets one entry for each.
   */
  method AddMapItem(h: Handle, node: Node) returns (r: Outcome)
    modifies NodeLits(node)
    ensures !IsValueSpec(node) ==> r == Continue
    ensures IsValueSpec(node) ==>
      var vs := node.s.vs;
      (r == Panic <==> Panics(vs)) &&
      forall l :: l in LitsOf(vs) ==> l.elts == old(l.elts) + Repeat(MapItem(h), HitCount(vs, Stop(vs), l))
  {
    if !IsValueSpec(node) {
      return Continue;
    }
    r := AppendAtMapNames(node.s.vs, MapItem(h));
  }

  /** The loop of addMapItem over one value spec's names, appending `item`. */
  method AppendAtMapNames(vs: ValueSpec, item: Expr) returns (r: Outcome)
    modifies LitsOf(vs)
    ensures r == Panic <==> Panics(vs)
    ensures forall l :: l in LitsOf(vs) ==> l.elts == old(l.elts) + Repeat(item, HitCount(vs, Stop(vs), l))
  {
    var idx := 0;
    while idx < |vs.names|
      invariant 0 <= idx <= |vs.names|
      invariant forall j :: 0 <= j < idx ==> !BadSlot(vs, j)
      invariant forall l :: l in LitsOf(vs) ==> l.elts == old(l.elts) + Repeat(item, HitCount(vs, idx, l))
    {
      if vs.names[idx] == MapName() {
        if idx >= |vs.values| || !vs.values[idx].Composite? {
          assert BadSlot(vs, idx);
          assert Stop(vs) == idx;
          return Panic;
        }
        var value := vs.values[idx].lit;
        assert value in LitsOf(vs);
        AppendOne(old(value.elts), item, HitCount(vs, idx, value));
        value.elts := value.elts + [item];
      }
      idx := idx + 1;
    }
    return Continue;
  }

  lemma AppendOne(before: seq<Expr>, x: Expr, c: nat)
    ensures (before + Repeat(x, c)) + [x] == before + Repeat(x, c + 1)
  {
    assert Repeat(x, c + 1) == Repeat(x, c) + [x];
  }

  // ---------------------------------------------------------------------
  // ast.Inspect with addMapItem over the top-level value specs
  // ---------------------------------------------------------------------

  function AllLits(vss: seq<ValueSpec>): set<CompositeLit>
    decreases |vss|
  {
    if vss == [] then {} else AllLits(vss[..|vss| - 1]) + LitsOf(vss[|vss| - 1])
  }

  /** Some value spec panics. */
  predicate AllPanics(vss: seq<ValueSpec>)
    decreases |vss|
  {
    |vss| > 0 && (AllPanics(vss[..|vss| - 1]) || Panics(vss[|vss| - 1]))
  }

  /** The entries `l` receives over a traversal of `vss`, which ends at the first panic. */
  function AllHitCount(vss: seq<ValueSpec>, l: CompositeLit): nat
    decreases |vss|
  {
    if vss == [] then 0
    else
      var init := vss[..|vss| - 1];
      var last := vss[|vss| - 1];
      if AllPanics(init) then AllHitCount(init, l) else AllHitCount(init, l) + HitCount(last, Stop(last), l)
  }

  /** A literal a value spec does not bind receives nothing from it. */
  lemma {:induction false} HitCountOutside(vs: ValueSpec, n: nat, l: CompositeLit)
    requires n <= |vs.names| && l !in LitsOf(vs)
    ensures HitCount(vs, n, l) == 0
    decreases n
  {
    if n > 0 {
      HitCountOutside(vs, n - 1, l);
      if GoodSlot(vs, n - 1) {
        assert vs.values[n - 1].lit in LitsOf(vs);
      }
    }
  }

  lemma LitsWithin(vss: seq<ValueSpec>, k: nat)
    requires k < |vss|
    ensures LitsOf(vss[k]) <= AllLits(vss)
    decreases |vss|
  {
    if k < |vss| - 1 {
      LitsWithin(vss[..|vss| - 1], k);
    }
  }

  /** Once the traversal has panicked, the rest of the value specs are never visited. */
  lemma {:induction false} PanicSticks(vss: seq<ValueSpec>, m: nat)
    requires m <= |vss| && AllPanics(vss[..m])
    ensures AllPanics(vss) && forall l :: AllHitCount(vss, l) == AllHitCount(vss[..m], l)
    decreases |vss| - m
  {
    if m < |vss| {
      assert vss[..m + 1][..m] == vss[..m];
      PanicSticks(vss, m + 1);
    } else {
      assert vss[..m] == vss;
    }
  }

  /** Visiting one more value spec adds what it contributes, and a literal it does not bind gets nothing. */
  lemma CountStep(vss: seq<ValueSpec>, k: nat, l: CompositeLit)
    requires k < |vss| && !AllPanics(vss[..k])
    ensures AllHitCount(vss[..k + 1], l) == AllHitCount(vss[..k], l) + HitCount(vss[k], Stop(vss[k]), l)
    ensures l !in LitsOf(vss[k]) ==> HitCount(vss[k], Stop(vss[k]), l) == 0
  {
    assert vss[..k + 1][..k] == vss[..k];
    if l !in LitsOf(vss[k]) {
      HitCountOutside(vss[k], Stop(vss[k]), l);
    }
  }

  /** addMapItem on each value spec in turn, stopping at the first panic. */
  method MapEdit(h: Handle, vss: seq<ValueSpec>) returns (r: Outcome)
    modifies AllLits(vss)
    ensures r == Panic <==> AllPanics(vss)
    ensures forall k, l :: 0 <= k < |vss| && l in LitsOf(vss[k]) ==>
      l.elts == old(l.elts) + Repeat(MapItem(h), AllHitCount(vss, l))
  {
    var item := MapItem(h);
    var k := 0;
    while k < |vss|
      invariant 0 <= k <= |vss|
      invariant !AllPanics(vss[..k])
      invariant forall j, l :: 0 <= j < |vss| && l in LitsOf(vss[j]) ==>
        l.elts == old(l.elts) + Repeat(item, AllHitCount(vss[..k], l))
    {
      var vs := vss[k];
      LitsWithin(vss, k);
      r := AddMapItem(h, SpecNode(ValueSpecNode(vs)));
      forall j, l | 0 <= j < |vss| && l in LitsOf(vss[j])
        ensures l.elts == old(l.elts) + Repeat(item, AllHitCount(vss[..k + 1], l))
      {
        CountStep(vss, k, l);
        RepeatAdd(item, AllHitCount(vss[..k], l), HitCount(vs, Stop(vs), l));
      }
      assert vss[..k + 1][..k] == vss[..k];
      if r == Panic {
        PanicSticks(vss, k + 1);
        return;
      }
      k := k + 1;
    }
    assert vss[..k] == vss;
    r := Continue;
  }

  /**
   * registerPrecompile between parsing and printing: the map edit over the
   * top-level value specs, then, unless it panicked, the import edit.
   */
  method RegisterPrecompile(h: Handle, file: File) returns (r: Outcome)
    modifies file, GenDecls(file.decls), AllLits(TopValueSpecs(file.decls))
    ensures r == Panic <==> AllPanics(old(TopValueSpecs(file.decls)))
    ensures var vss := old(TopValueSpecs(file.decls));
      forall k, l :: 0 <= k < |vss| && l in LitsOf(vss[k]) ==>
        l.elts == old(l.elts) + Repeat(MapItem(h), AllHitCount(vss, l))
    ensures r == Panic ==>
      file.decls == old(file.decls) && forall g :: g in old(GenDecls(file.decls)) ==> g.specs == old(g.specs)
    ensures var i := FirstImport(old(file.decls));
      r == Continue && i >= 0 ==>
        file.decls == old(file.decls) && file.decls[i].g.specs == old(file.decls[i].g.specs) + [ImportFor(h)]
    ensures r == Continue && FirstImport(old(file.decls)) < 0 ==>
      |file.decls| == |old(file.decls)| + 1 && file.decls[1..] == old(file.decls) &&
      IsImportDecl(file.decls[0]) && fresh(file.decls[0].g) && file.decls[0].g.specs == [ImportFor(h)]
    ensures var i := FirstImport(old(file.decls));
      r == Continue ==>
        forall g :: g in old(GenDecls(file.decls)) && (i < 0 || g != old(file.decls)[i].g) ==> g.specs == old(g.specs)
  {
    var vss := TopValueSpecs(file.decls);
    TopValueSpecsAllocated(file.decls);
    r := MapEdit(h, vss);
    if r == Panic {
      return;
    }
    var ok := AddImport(h, file);
  }

  // ---------------------------------------------------------------------
  // Properties of the map edit
  // ---------------------------------------------------------------------

  /** With no name equal to the map's, nothing gets an entry and nothing panics. */
  lemma {:induction false} NoMapNoEdit(vss: seq<ValueSpec>, l: CompositeLit)
    requires forall k, i :: 0 <= k < |vss| && 0 <= i < |vss[k].names| ==> vss[k].names[i] != MapName()
    ensures AllHitCount(vss, l) == 0 && !AllPanics(vss)
    decreases |vss|
  {
    if vss != [] {
      var init := vss[..|vss| - 1];
      var last := vss[|vss| - 1];
      assert forall k :: 0 <= k < |init| ==> init[k] == vss[k];
      NoMapNoEdit(init, l);
      NoHits(last, |last.names|, l);
    }
  }

  lemma {:induction false} NoHits(vs: ValueSpec, n: nat, l: CompositeLit)
    requires n <= |vs.names|
    requires forall i :: 0 <= i < |vs.names| ==> vs.names[i] != MapName()
    ensures HitCount(vs, n, l) == 0 && Stop(vs) == |vs.names|
    decreases n
  {
    if n > 0 {
      NoHits(vs, n - 1, l);
    }
  }

  /**
   * When the literals bound under the map's name are all different, each of
   * them before the stop receives exactly one entry.
   */
  lemma {:induction false} HitsOnce(vs: ValueSpec, n: nat, i: nat)
    requires n <= |vs.names| && i < n && GoodSlot(vs, i)
    requires forall p, q :: 0 <= p < q < n && GoodSlot(vs, p) && GoodSlot(vs, q) ==>
      vs.values[p].lit != vs.values[q].lit
    ensures HitCount(vs, n, vs.values[i].lit) == 1
    decreases n
  {
    var l := vs.values[i].lit;
    if i == n - 1 {
      NotHitBefore(vs, n - 1, l);
    } else {
      HitsOnce(vs, n - 1, i);
    }
  }

  /** A literal bound at none of the first `n` matching names receives no entry from them. */
  lemma {:induction false} NotHitBefore(vs: ValueSpec, n: nat, l: CompositeLit)
    requires n <= |vs.names|
    requires forall p :: 0 <= p < n && GoodSlot(vs, p) ==> vs.values[p].lit != l
    ensures HitCount(vs, n, l) == 0
    decreases n
  {
    if n > 0 {
      NotHitBefore(vs, n - 1, l);
    }
  }
}
