/**
 * The text patch that `preinstall register` applies to the L2 genesis
 * script (handleRegisterL2Genesis in cmd/preinstall/preinstall.go): three
 * edits, each skipped when its marker is already present, that import the
 * generated library, append a helper function before the last closing
 * brace and extend the call site that installs the built-in preinstalls.
 */
module GenesisPatch {
  import opened GoStrings
  import opened Results

  // ---------------------------------------------------------------------
  // The literals the edits search for and insert
  // ---------------------------------------------------------------------

  const ImportMarker := "PreinstallsExtension.sol"
  function ImportHead(): string { "pragma solidity 0.8.15;\n\nimport { PreinstallsExtension } from \"src/libraries/" }
  /** The text every matched pragma line is replaced by. */
  function ImportLine(): string { ImportHead() + ImportMarker + "\";" }

  const FunctionMarker := "_setPreinstallExtensionCode"
  function FunctionHead(): string { "\t/// @notice Sets the bytecode in state\n    function " }
  function FunctionTail(): string { "(address _addr) internal {\n        string memory cname = PreinstallsExtension.getName(_addr);\n        console.log(\"Setting %s preinstall extension code at: %s\", cname, _addr);\n        vm.etch(_addr, PreinstallsExtension.getDeployedCode(_addr, cfg.l2ChainID()));\n        // during testing in a shared L1/L2 account namespace some preinstalls may already have been inserted and used.\n        if (vm.getNonce(_addr) == 0) {\n            vm.setNonce(_addr, 1);\n        }\n    }" }
  /** The helper function appended to the script. */
  function NewFunction(): string { FunctionHead() + FunctionMarker + FunctionTail() }

  const CallMarker := "PreinstallsExtension.getPreinstallAddresses"
  /** The call site the loop is attached to (written in two pieces, "_setPreinstallCode(" and its argument). */
  const CallLine := "_setPreinstallCode(" + "Preinstalls.BeaconBlockRoots);"
  function LoopHead(): string { CallLine + "\n\t \tfor (uint256 i; i < " }
  function LoopMiddle(): string { "().length; i++) {\n            " }
  function LoopTail(): string { "(" + CallMarker + "()[i]);\n\t\t}" }
  /** What every call site becomes. */
  function CallWithLoop(): string { LoopHead() + CallMarker + (LoopMiddle() + FunctionMarker + LoopTail()) }

  // ---------------------------------------------------------------------
  // The pragma pattern: (?m)^pragma solidity \d+\.\d+\.\d+;
  // ---------------------------------------------------------------------

  const PragmaPrefix := "pragma solidity "

  /** `\d` in Go's regexp syntax: an ASCII digit. */
  predicate IsDigit(c: char) { '0' <= c <= '9' }

  predicate IsDigits(d: string) {
    forall k :: 0 <= k < |d| ==> IsDigit(d[k])
  }

  /**
   * Where the matcher stands inside the pattern: `Literal(i)` expects the
   * i-th character of "pragma solidity ", `Digits(f, seen)` reads the f-th
   * version number (`seen` once it has at least one digit), `Done` has
   * matched the final `;`.
   */
  datatype State = Literal(i: nat) | Digits(field: nat, seen: bool) | Done

  /** One character of input; None when the pattern cannot continue. */
  function Step(st: State, c: char): Option<State> {
    match st
    case Literal(i) =>
      if i < |PragmaPrefix| && c == PragmaPrefix[i] then
        Some(if i + 1 < |PragmaPrefix| then Literal(i + 1) else Digits(0, false))
      else None
    case Digits(f, seen) =>
      if IsDigit(c) then Some(Digits(f, true))
      else if seen && f < 2 && c == '.' then Some(Digits(f + 1, false))
      else if seen && f == 2 && c == ';' then Some(Done)
      else None
    case Done => None
  }

  /**
   * Length of the match of the rest of the pattern, from state `st`, at the
   * front of `s`, or -1. A digit is never a dot or a semicolon, so `\d+`
   * can stop at one place only and the regexp's leftmost-first match is
   * this one.
   */
  function Scan(s: string, st: State): (n: int)
    ensures -1 <= n <= |s|
    decreases |s|
  {
    if st == Done then 0
    else if s == [] then -1
    else match Step(st, s[0])
      case None => -1
      case Some(next) =>
        var r := Scan(s[1..], next);
        if r < 0 then -1 else r + 1
  }

  /** Length of the match of the pragma pattern at the front of `s`, or 0 when there is none. */
  function PragmaMatch(s: string): (n: nat)
    ensures n <= |s|
  {
    var r := Scan(s, Literal(0));
    if r < 0 then 0 else r
  }

  /** The text a pragma directive consists of, given its three version numbers. */
  function PragmaText(d1: string, d2: string, d3: string): string {
    PragmaPrefix + d1 + "." + d2 + "." + d3 + ";"
  }

  /** `(?m)^` holds at position `i` of `s`. */
  predicate LineStart(s: string, i: nat) {
    i <= |s| && (i == 0 || s[i - 1] == '\n')
  }

  /** A line starting at `i` begins with a pragma directive. */
  predicate PragmaLineAt(s: string, i: nat) {
    LineStart(s, i) && PragmaMatch(s[i..]) > 0
  }

  // ---------------------------------------------------------------------
  // regexp.ReplaceAllString with the pragma pattern
  // ---------------------------------------------------------------------

  /**
   * regexp.ReplaceAllString(s, rep) for the pragma pattern and a replacement
   * `rep` without `$` (so it is inserted literally). Scans `s` left to
   * right; `atLineStart` says whether `^` holds at the front of `s`. Each
   * match is replaced and scanning resumes right after it.
   */
  function ReplacePragmasFrom(s: string, rep: string, atLineStart: bool): string
    decreases |s|
  {
    if s == [] then []
    else if atLineStart && PragmaMatch(s) > 0 then
      rep + ReplacePragmasFrom(s[PragmaMatch(s)..], rep, false)
    else [s[0]] + ReplacePragmasFrom(s[1..], rep, s[0] == '\n')
  }

  function ReplacePragmas(s: string, rep: string): string {
    ReplacePragmasFrom(s, rep, true)
  }

  // ---------------------------------------------------------------------
  // The three edits and the whole patch. Each edit takes the text it
  // inserts as a parameter; `Patch` supplies the script's literals.
  // ---------------------------------------------------------------------

  /** Edit 1: pragma lines become `imp`, unless the library name already occurs. */
  function ImportEdit(t: string, imp: string): string {
    if Contains(t, ImportMarker) then t else ReplacePragmas(t, imp)
  }

  /** Result of the patch: the new text, or the slice panic of `strContent[:-1]`. */
  datatype Outcome = Patched(text: string) | SlicePanic

  /** The text up to the `}` at `k`, the helper function `fn` and a new closing brace. */
  function AppendHelper(t: string, k: nat, fn: string): string
    requires k <= |t|
  {
    t[..k] + "\n" + fn + "\n}"
  }

  /**
   * Edit 2: unless the helper's name already occurs, everything from the
   * last `}` on is replaced by the helper function `fn` and a new `}`.
   * Without any `}` the slice expression panics.
   */
  function FunctionEdit(t: string, fn: string): (r: Outcome)
    ensures Contains(t, FunctionMarker) ==> r == Patched(t)
    ensures r.SlicePanic? <==> !Contains(t, FunctionMarker) && '}' !in t
    ensures r.Patched? && !Contains(t, FunctionMarker) ==>
      exists k :: 0 <= k < |t| && t[k] == '}' && '}' !in t[k + 1..] &&
        r.text == AppendHelper(t, k, fn)
  {
    if Contains(t, FunctionMarker) then Patched(t)
    else
      var k := LastIndex(t, '}');
      if k < 0 then SlicePanic else Patched(AppendHelper(t, k, fn))
  }

  /** Edit 3: unless the loop's marker already occurs, every call site becomes `loop`. */
  function CallSiteEdit(t: string, loop: string): string {
    if Contains(t, CallMarker) then t else ReplaceAll(t, CallLine, loop)
  }

  /** The three edits in order, each on the text the previous one produced. */
  function PatchWith(t: string, imp: string, fn: string, loop: string): Outcome {
    match FunctionEdit(ImportEdit(t, imp), fn)
    case Patched(t2) => Patched(CallSiteEdit(t2, loop))
    case SlicePanic => SlicePanic
  }

  /** handleRegisterL2Genesis between reading and writing the file. */
  function Patch(t: string): Outcome {
    PatchWith(t, ImportLine(), NewFunction(), CallWithLoop())
  }
}
