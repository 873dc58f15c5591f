/**
 * `precompile new [name] [address]` (cmd/precompile/precompile.go): the
 * address check, the struct and package names derived from the name, the
 * generated stub file and the steps the command then takes.
 */
module Precompile {
  import opened GoStrings
  import opened Results
  import opened Hex
  import PrecompileHandle

  // ---------------------------------------------------------------------
  // Address check
  // ---------------------------------------------------------------------

  /** The two ways the address argument is refused. */
  datatype AddressError = MissingPrefix | BadHex(err: DecodeError)

  /**
   * The checks on the trimmed address: it must start with `0x` and the rest
   * must decode with hex.DecodeString. The accepted address keeps its `0x`.
   */
  function ValidateAddress(addr: string): (r: Result<string, AddressError>)
    ensures r.Ok? ==> r.value == addr && HasPrefix(addr, "0x")
    ensures r == Err(MissingPrefix) <==> !HasPrefix(addr, "0x")
  {
    if !HasPrefix(addr, "0x") then Err(MissingPrefix)
    else
      match DecodeString(TrimPrefix(addr, "0x"))
      case Err(e) => Err(BadHex(e))
      case Ok(_) => Ok(addr)
  }

  /**
   * The address is accepted exactly when it is `0x` followed by an even
   * number of hex digits; no length of 20 bytes is asked for.
   */
  lemma AddressAccepts(addr: string)
    ensures ValidateAddress(addr).Ok? <==>
      |addr| >= 2 && addr[..2] == "0x" && |addr| % 2 == 0 && AllHex(addr[2..])
  {
    if HasPrefix(addr, "0x") {
      DecodeOkIff(addr[2..]);
    }
  }

  /** An odd number of hex digits after `0x` is hex.ErrLength. */
  lemma AddressOddLength(addr: string)
    requires |addr| >= 2 && addr[..2] == "0x" && |addr| % 2 == 1 && AllHex(addr[2..])
    ensures ValidateAddress(addr) == Err(BadHex(ErrLength))
  {
    DecodeErrLengthIff(addr[2..]);
  }

  /** A non-hex character after `0x` is reported as hex.InvalidByteError, by the first byte of the first such one. */
  lemma AddressInvalidByte(addr: string, b: byte)
    requires ValidateAddress(addr) == Err(BadHex(InvalidByte(b)))
    ensures exists i :: 2 <= i < |addr| && !IsHexDigit(addr[i]) && Utf8FirstByte(addr[i]) == b && AllHex(addr[2..i])
  {
    var rest := addr[2..];
    DecodeInvalidIsFirst(rest, b);
    var i :| 0 <= i < |rest| && !IsHexDigit(rest[i]) && Utf8FirstByte(rest[i]) == b && AllHex(rest[..i]);
    assert addr[2..i + 2] == rest[..i];
    assert addr[i + 2] == rest[i];
  }

  /** A hex address has no surrounding white space, so trimming leaves it as it is. */
  lemma HexAddressUntrimmed(addr: string)
    requires |addr| >= 2 && addr[..2] == "0x" && AllHex(addr[2..])
    ensures TrimSpace(addr) == addr
  {
    assert addr[0] == '0';
    if |addr| > 2 {
      assert addr[|addr| - 1] == addr[2..][|addr| - 3];
    }
    TrimSpaceKeeps(addr);
  }

  /** An address of `0x` and an even number of hex digits passes, trimmed or not. */
  lemma ShortAddressAccepted(addr: string)
    requires addr == "0x" || addr == "0x01"
    ensures TrimSpace(addr) == addr && ValidateAddress(TrimSpace(addr)).Ok?
  {
    assert addr[..2] == "0x" && |addr| % 2 == 0;
    assert AllHex(addr[2..]);
    HexAddressUntrimmed(addr);
    AddressAccepts(addr);
  }

  /** The bare `0x` and a one-byte address both pass, surrounding white space aside. */
  lemma ShortAddressesAccepted()
    ensures ValidateAddress(TrimSpace("0x")).Ok?
    ensures ValidateAddress(TrimSpace("0x01")).Ok?
  {
    ShortAddressAccepted("0x");
    ShortAddressAccepted("0x01");
  }

  // ---------------------------------------------------------------------
  // Struct and package names
  // ---------------------------------------------------------------------

  /** The characters title casing treats as cased: the ASCII letters. */
  predicate IsLetter(c: char) {
    IsAsciiLower(c) || IsAsciiUpper(c)
  }

  /**
   * cases.Title with NoLower over ASCII text: in each space-separated word
   * the first letter is upper-cased and every other character is kept.
   * Characters before that letter, such as digits, are neither cased nor
   * word breaks, so the word start carries over them. `wordStart` says no
   * letter of the current word has been seen yet.
   */
  function TitleFrom(s: string, wordStart: bool): (r: string)
    ensures |r| == |s|
    decreases |s|
  {
    if s == [] then []
    else
      var head := if wordStart && IsLetter(s[0]) then UpperChar(s[0]) else s[0];
      [head] + TitleFrom(s[1..], s[0] == ' ' || (wordStart && !IsLetter(s[0])))
  }

  /** Each character is kept, or it is a letter and is upper-cased. */
  lemma {:induction false} TitleChars(s: string, f: bool)
    ensures forall k :: 0 <= k < |s| ==>
      TitleFrom(s, f)[k] == s[k] || (IsLetter(s[k]) && TitleFrom(s, f)[k] == UpperChar(s[k]))
    decreases |s|
  {
    if s != [] {
      var g := s[0] == ' ' || (f && !IsLetter(s[0]));
      TitleChars(s[1..], g);
      assert forall k :: 1 <= k < |s| ==> TitleFrom(s, f)[k] == TitleFrom(s[1..], g)[k - 1] && s[k] == s[1..][k - 1];
    }
  }

  function Title(s: string): string {
    TitleFrom(s, true)
  }

  /** Hyphens become word breaks. */
  function HyphensToSpaces(name: string): string {
    ReplaceAll(name, "-", " ")
  }

  /** The Go type name: hyphens to spaces, title case, spaces removed. */
  function StructName(name: string): string {
    ReplaceAll(Title(HyphensToSpaces(name)), " ", "")
  }

  /** The Go package name: the struct name in lower case. */
  function PackageName(name: string): string {
    ToLower(StructName(name))
  }

  /** A word with its first letter upper-cased; what comes before that letter is kept. */
  function Capitalize(w: string): (r: string)
    ensures |r| == |w|
    ensures forall k :: 0 <= k < |w| ==> r[k] == w[k] || (IsLetter(w[k]) && r[k] == UpperChar(w[k]))
    decreases |w|
  {
    if w == [] then []
    else if IsLetter(w[0]) then [UpperChar(w[0])] + w[1..]
    else
      var rest := Capitalize(w[1..]);
      assert forall k :: 1 <= k < |w| ==> ([w[0]] + rest)[k] == rest[k - 1] && w[k] == w[1..][k - 1];
      [w[0]] + rest
  }

  function CapitalizeAll(ws: seq<string>): (r: seq<string>)
    ensures |r| == |ws|
    ensures forall k :: 0 <= k < |ws| ==> r[k] == Capitalize(ws[k])
    decreases |ws|
  {
    if ws == [] then [] else [Capitalize(ws[0])] + CapitalizeAll(ws[1..])
  }

  /** Two texts with spaces at the same positions have the same first space. */
  lemma SameFirstSpace(s: string, t: string)
    requires |s| == |t|
    requires forall k :: 0 <= k < |s| ==> (s[k] == ' ' <==> t[k] == ' ')
    ensures Index(s, " ") == Index(t, " ")
  {
    IndexChar(s, ' ');
    IndexChar(t, ' ');
    var i := Index(s, " ");
    if i >= 0 {
      assert forall k :: 0 <= k < i ==> t[..i][k] == t[k] && s[..i][k] == s[k];
      IndexSingle(t, ' ', i);
    } else {
      assert forall k :: 0 <= k < |t| ==> t[k] != ' ';
    }
  }

  /** Title case leaves the spaces where they are. */
  lemma TitleSpaces(s: string)
    ensures forall k :: 0 <= k < |s| ==> (s[k] == ' ' <==> Title(s)[k] == ' ')
  {
    TitleChars(s, true);
    forall k | 0 <= k < |s| ensures s[k] == ' ' <==> Title(s)[k] == ' ' {
      UpperKeeps(s[k]);
    }
  }

  /** Upper-casing neither makes nor removes a space or a hyphen. */
  lemma UpperKeeps(c: char)
    ensures UpperChar(c) == ' ' <==> c == ' '
    ensures UpperChar(c) == '-' <==> c == '-'
  {
  }

  /** Inside a word whose letter has been seen, title case changes nothing. */
  lemma {:induction false} TitleWordRest(s: string)
    requires ' ' !in s
    ensures TitleFrom(s, false) == s
    decreases |s|
  {
    if s != [] {
      assert ' ' !in s[1..] by { assert forall k :: 0 <= k < |s| - 1 ==> s[1..][k] == s[k + 1]; }
      TitleWordRest(s[1..]);
      assert [s[0]] + s[1..] == s;
    }
  }

  /** A single word is title-cased by capitalising it. */
  lemma {:induction false} TitleWord(s: string)
    requires ' ' !in s
    ensures Title(s) == Capitalize(s)
    decreases |s|
  {
    if s != [] {
      assert ' ' !in s[1..] by { assert forall k :: 0 <= k < |s| - 1 ==> s[1..][k] == s[k + 1]; }
      if IsLetter(s[0]) {
        TitleWordRest(s[1..]);
      } else {
        TitleWord(s[1..]);
      }
    }
  }

  /** Whether the word start carries past the first character. */
  function NextStart(c: char, wordStart: bool): bool {
    c == ' ' || (wordStart && !IsLetter(c))
  }

  /** The title-cased first character. */
  function TitleHead(c: char, wordStart: bool): char {
    if wordStart && IsLetter(c) then UpperChar(c) else c
  }

  lemma TitleUnfold(s: string, f: bool)
    requires s != []
    ensures TitleFrom(s, f) == [TitleHead(s[0], f)] + TitleFrom(s[1..], NextStart(s[0], f))
  {
  }

  /** Title case runs across a space by starting a new word after it. */
  lemma {:induction false} TitleCutFrom(s: string, f: bool, i: nat)
    requires i < |s| && s[i] == ' '
    ensures TitleFrom(s, f) == TitleFrom(s[..i], f) + [' '] + TitleFrom(s[i + 1..], true)
    decreases i
  {
    if i == 0 {
      TitleUnfold(s, f);
      assert s[..0] == [] && s[1..] == s[i + 1..];
    } else {
      var g := NextStart(s[0], f);
      var a, t := s[..i], s[1..];
      assert t[..i - 1] == a[1..];
      assert t[i..] == s[i + 1..];
      var h := [TitleHead(s[0], f)];
      var mid := TitleFrom(a[1..], g);
      var rest := TitleFrom(s[i + 1..], true);
      TitleCutFrom(t, g, i - 1);
      TitleUnfold(s, f);
      TitleUnfold(a, f);
      AppendAssoc(h, mid + [' '], rest);
      AppendAssoc(h, mid, [' ']);
    }
  }

  /** Title case of a text cut at a space is title case of each side. */
  lemma TitleCut(s: string, i: nat)
    requires i < |s| && s[i] == ' ' && ' ' !in s[..i]
    ensures Title(s)[..i] == Capitalize(s[..i])
    ensures Title(s)[i + 1..] == Title(s[i + 1..])
  {
    TitleCutFrom(s, true, i);
    TitleWord(s[..i]);
  }

  /** Title case of space-separated words is each word capitalised. */
  lemma {:induction false} TitleSplit(s: string)
    ensures Split(Title(s), " ") == CapitalizeAll(Split(s, " "))
    decreases |s|
  {
    var t := Title(s);
    TitleSpaces(s);
    SameFirstSpace(s, t);
    IndexChar(s, ' ');
    var i := Index(s, " ");
    if i < 0 {
      TitleWord(s);
    } else {
      var rest := s[i + 1..];
      TitleSplit(rest);
      TitleCut(s, i);
      SplitStep(s, " ", i);
      SplitStep(t, " ", i);
    }
  }

  /**
   * The struct name is the name's hyphen- or space-separated words, each
   * with its first letter upper-cased, run together.
   */
  lemma StructNameWords(name: string)
    ensures StructName(name) == Join(CapitalizeAll(Split(HyphensToSpaces(name), " ")), "")
  {
    ReplaceAllIsSplitJoin(Title(HyphensToSpaces(name)), " ", "");
    TitleSplit(HyphensToSpaces(name));
  }

  /** After the hyphens are replaced, none is left. */
  lemma HyphensGone(name: string)
    ensures '-' !in HyphensToSpaces(name)
  {
    ReplaceAllIsSplitJoin(name, "-", " ");
    SplitCharParts(name, '-');
    JoinAvoids(Split(name, "-"), " ", '-');
  }

  /** A word that starts with a digit has its first letter upper-cased: `2fa` becomes `2Fa`. */
  lemma DigitLedWord(s: string)
    requires s == "2fa"
    ensures Title(s) == "2Fa"
  {
    TitleWord(s);
    assert s[1..] == "fa" && !IsLetter(s[0]);
  }

  /** Capitalising words adds no hyphen and no space to them. */
  lemma CapitalizedWordsAvoid(ws: seq<string>, c: char)
    requires c == '-' || c == ' '
    requires forall k :: 0 <= k < |ws| ==> c !in ws[k]
    ensures forall k :: 0 <= k < |ws| ==> c !in CapitalizeAll(ws)[k]
  {
    forall k | 0 <= k < |ws| ensures c !in CapitalizeAll(ws)[k] {
      var w := ws[k];
      forall j | 0 <= j < |w| ensures Capitalize(w)[j] != c {
        UpperKeeps(w[j]);
      }
    }
  }

  /** The struct name holds no hyphen and no space. */
  lemma StructNameClean(name: string)
    ensures '-' !in StructName(name) && ' ' !in StructName(name)
  {
    var x := HyphensToSpaces(name);
    HyphensGone(name);
    var ws := Split(x, " ");
    SplitCharParts(x, ' ');
    SplitAvoids(x, " ", '-');
    CapitalizedWordsAvoid(ws, '-');
    CapitalizedWordsAvoid(ws, ' ');
    StructNameWords(name);
    JoinAvoids(CapitalizeAll(ws), "", '-');
    JoinAvoids(CapitalizeAll(ws), "", ' ');
  }

  lemma ToLowerConcat(a: string, b: string)
    ensures ToLower(a + b) == ToLower(a) + ToLower(b)
  {
  }

  /** Capitalising a word makes no difference once it is lower-cased. */
  lemma LowerCapitalize(w: string)
    ensures ToLower(Capitalize(w)) == ToLower(w)
  {
    forall k | 0 <= k < |w| ensures ToLower(Capitalize(w))[k] == ToLower(w)[k] {
      LowerUpper(w[k]);
    }
  }

  lemma JoinTight(ws: seq<string>)
    requires |ws| > 1
    ensures Join(ws, "") == ws[0] + Join(ws[1..], "")
  {
    assert ws[0] + "" == ws[0];
  }

  /** Lower-casing a joined list of capitalised words forgets the capitals. */
  lemma {:induction false} LowerCapitalized(ws: seq<string>)
    ensures ToLower(Join(CapitalizeAll(ws), "")) == ToLower(Join(ws, ""))
    decreases |ws|
  {
    if |ws| > 1 {
      LowerCapitalized(ws[1..]);
      var cs := CapitalizeAll(ws);
      assert cs[1..] == CapitalizeAll(ws[1..]);
      JoinTight(cs);
      JoinTight(ws);
      ToLowerConcat(cs[0], Join(cs[1..], ""));
      ToLowerConcat(ws[0], Join(ws[1..], ""));
      LowerCapitalize(ws[0]);
    } else if |ws| == 1 {
      LowerCapitalize(ws[0]);
    }
  }

  /**
   * The package name is the name with its hyphens and spaces dropped, in
   * lower case: title-casing makes no difference to it.
   */
  lemma PackageNameDropsSeparators(name: string)
    ensures PackageName(name) == ToLower(ReplaceAll(HyphensToSpaces(name), " ", ""))
  {
    var x := HyphensToSpaces(name);
    StructNameWords(name);
    LowerCapitalized(Split(x, " "));
    ReplaceAllIsSplitJoin(x, " ", "");
  }

  lemma HyphenExample(s: string)
    requires s == "my-contract"
    ensures HyphensToSpaces(s) == "my contract"
  {
    assert s[..2] == "my" && s[3..] == "contract";
    ReplaceSingle(s, '-', " ", 2);
  }

  lemma SplitExample(s: string)
    requires s == "my contract"
    ensures Split(s, " ") == ["my", "contract"]
  {
    assert s[..2] == "my" && s[3..] == "contract";
    SplitSingle(s, ' ', 2);
  }

  lemma CapitalizeExample(ws: seq<string>)
    requires ws == ["my", "contract"]
    ensures Join(CapitalizeAll(ws), "") == "MyContract"
  {
    var cs := CapitalizeAll(ws);
    assert cs == [Capitalize(ws[0]), Capitalize(ws[1])];
    JoinPair(cs[0], cs[1]);
    assert cs[0] == "My" && cs[1] == "Contract";
  }

  lemma JoinPair(a: string, b: string)
    ensures Join([a, b], "") == a + b
  {
    assert [a, b][1..] == [b];
  }

  lemma LowerExample(s: string)
    requires s == "MyContract"
    ensures ToLower(s) == "mycontract"
  {
  }

  /** For example, `my-contract` gives the struct `MyContract` and the package `mycontract`. */
  lemma MyContractExample()
    ensures StructName("my-contract") == "MyContract"
    ensures PackageName("my-contract") == "mycontract"
  {
    HyphenExample("my-contract");
    SplitExample("my contract");
    StructNameWords("my-contract");
    CapitalizeExample(["my", "contract"]);
    LowerExample("MyContract");
  }

  // ---------------------------------------------------------------------
  // The generated stub and the command's steps
  // ---------------------------------------------------------------------

  function RequiredGasStub(): string {
    ") RequiredGas(input []byte) uint64 {\n\t// TODO: implement RequiredGas\n\tpanic(\"implement me\")\n}\n\nfunc (c *"
  }
  function RunStub(): string {
    ") Run(input []byte) ([]byte, error) {\n\t// TODO: implement Run\n\tpanic(\"implement me\")\n}\n"
  }

  /** `package {{.PackageName}}` with the blank line the template opens with. */
  function PackageClause(pkg: string): string {
    "\npackage " + pkg + "\n"
  }

  /** `type {{.StructName}} struct{}` */
  function TypeDecl(structName: string): string {
    "type " + structName + " struct{}"
  }

  /** The two method stubs with their receivers. */
  function MethodStubs(structName: string): string {
    "\n\nfunc (c *" + structName + RequiredGasStub() + structName + RunStub()
  }

  /** The template filled in with the package and struct names; nothing is escaped. */
  function RenderStub(pkg: string, structName: string): string {
    PackageClause(pkg) + "\n" + TypeDecl(structName) + MethodStubs(structName)
  }

  /** A text made of a head, a line break, a middle and a tail starts with the head and holds the middle. */
  lemma HeadAndMiddle(head: string, m: string, tail: string)
    ensures HasPrefix(head + "\n" + m + tail, head)
    ensures Contains(head + "\n" + m + tail, m)
  {
    var withBreak := head + "\n";
    ContainsMiddle(withBreak, m, tail);
    ContainsFront(head, "\n");
    ContainsFront(withBreak, m);
    ContainsFront(withBreak + m, tail);
    PrefixTrans(withBreak + m, withBreak, head);
    PrefixTrans(withBreak + m + tail, withBreak + m, head);
  }

  /** The stub opens with its package clause and declares the struct type. */
  lemma StubDeclares(pkg: string, structName: string)
    ensures HasPrefix(RenderStub(pkg, structName), "\npackage " + pkg + "\n")
    ensures Contains(RenderStub(pkg, structName), "type " + structName + " struct{}")
  {
    HeadAndMiddle(PackageClause(pkg), TypeDecl(structName), MethodStubs(structName));
  }

  /** The generated file: `name/name.go`, from the trimmed name rather than the struct name. */
  function GoFilePath(name: string): string {
    name + "/" + name + ".go"
  }

  /** What the command does once the address is accepted, in order. `RenderStubFile` writes
      RenderStub(packageName, structName) to `path`; `RegisterPrecompile` edits the op-geth
      checkout in `gethDir` with the handle (PrecompileHandle.RegisterPrecompile). */
  datatype Step =
    | MakeDirIfMissing(dir: string)
    | GoModInitIfMissing(dir: string, moduleName: string)
    | GoWorkUse(dir: string)
    | RenderStubFile(path: string, packageName: string, structName: string)
    | RegisterPrecompile(gethDir: string, handle: PrecompileHandle.Handle)

  /** The steps for a trimmed name and an accepted address. */
  function Steps(name: string, addr: string): seq<Step> {
    var st := StructName(name);
    var pkg := ToLower(st);
    [MakeDirIfMissing(name), GoModInitIfMissing(name, pkg), GoWorkUse(name),
     RenderStubFile(GoFilePath(name), pkg, st),
     RegisterPrecompile("./op-geth", PrecompileHandle.NewHandle(addr, st, pkg))]
  }

  /** `precompile new`: either the address error, with no step taken, or the steps. */
  function NewPrecompile(nameArg: string, addrArg: string): (r: Result<seq<Step>, AddressError>)
    ensures r.Err? <==> ValidateAddress(TrimSpace(addrArg)).Err?
    ensures r.Err? ==> r.error == ValidateAddress(TrimSpace(addrArg)).error
  {
    match ValidateAddress(TrimSpace(addrArg))
    case Err(e) => Err(e)
    case Ok(addr) => Ok(Steps(TrimSpace(nameArg), addr))
  }

  /**
   * On success the stub file and the registration agree: the directory
   * steps and the stub's path use the trimmed name as given, the handle gets
   * the struct and package names the stub declares, the package name is the
   * struct name in lower case, and the address is the trimmed argument with
   * its `0x`.
   */
  lemma NewPrecompileSteps(nameArg: string, addrArg: string)
    requires NewPrecompile(nameArg, addrArg).Ok?
    ensures var steps := NewPrecompile(nameArg, addrArg).value;
      |steps| == 5 && steps[0].MakeDirIfMissing? && steps[1].GoModInitIfMissing? && steps[2].GoWorkUse? &&
      steps[3].RenderStubFile? && steps[4].RegisterPrecompile? &&
      steps[0].dir == TrimSpace(nameArg) && steps[1].dir == TrimSpace(nameArg) &&
      steps[2].dir == TrimSpace(nameArg) && steps[3].path == GoFilePath(TrimSpace(nameArg)) &&
      steps[1].moduleName == steps[3].packageName &&
      steps[4].handle.structName == steps[3].structName &&
      steps[4].handle.packageName == steps[3].packageName &&
      steps[3].packageName == ToLower(steps[3].structName) &&
      steps[4].handle.address == TrimSpace(addrArg) && HasPrefix(steps[4].handle.address, "0x")
  {
  }

  /** With a name that needs no trimming, the directory and the stub's path are the name itself. */
  lemma StubStepOf(name: string, addrArg: string)
    requires NewPrecompile(name, addrArg).Ok? && TrimSpace(name) == name
    ensures NewPrecompile(name, addrArg).value[0] == MakeDirIfMissing(name)
    ensures NewPrecompile(name, addrArg).value[3] ==
      RenderStubFile(GoFilePath(name), PackageName(name), StructName(name))
  {
  }

  /**
   * For example, `my-contract` writes `my-contract/my-contract.go`, named after the
   * argument, while the struct it declares is `MyContract` in package `mycontract`.
   */
  lemma MyContractStubPath(name: string, addrArg: string)
    requires name == "my-contract" && NewPrecompile(name, addrArg).Ok?
    ensures NewPrecompile(name, addrArg).value[0] == MakeDirIfMissing("my-contract")
    ensures NewPrecompile(name, addrArg).value[3] ==
      RenderStubFile("my-contract/my-contract.go", "mycontract", "MyContract")
  {
    TrimSpaceKeeps(name);
    StubStepOf(name, addrArg);
    MyContractExample();
    assert StructName(name) == "MyContract";
    assert PackageName(name) == "mycontract";
    MyContractFilePath();
    assert GoFilePath(name) == "my-contract/my-contract.go";
  }

  lemma MyContractFilePath()
    ensures GoFilePath("my-contract") == "my-contract/my-contract.go"
  {
  }
}
