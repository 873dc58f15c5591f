/**
 * The argument checks of `preinstall register`, the make target chosen by
 * `preinstall devnet`, `isValidHex` and the rendered PreinstallsExtension
 * library (cmd/preinstall/preinstall.go).
 */
module Preinstall {
  import opened GoStrings
  import opened Results
  import opened Hex

  // ---------------------------------------------------------------------
  // register: argument checks and derived paths
  // ---------------------------------------------------------------------

  /** The three errors `register` reports before touching any file, in the order it checks them. */
  datatype RegisterError = BadContractFormat | MissingPrefix | InvalidAddress

  /** What `register` goes on with: the preinstall's name, its address and the ABI file to read. */
  datatype Registration = Registration(name: string, address: string, abiFile: string)

  /**
   * The checks of `register [address] [file.sol:Name]`: the contract
   * argument must split on `:` into exactly two parts, the address must
   * start with `0x` and be a valid hex address. The name is the second
   * part; the ABI path replaces every `:` by `/`.
   */
  function CheckRegister(addr: string, contract: string): (r: Result<Registration, RegisterError>)
    ensures r.Ok? ==> r.value.address == addr && HasPrefix(addr, "0x") && IsHexAddress(addr)
    ensures r.Ok? ==> |Split(contract, ":")| == 2 && r.value.name == Split(contract, ":")[1]
  {
    var parts := Split(contract, ":");
    if |parts| != 2 then Err(BadContractFormat)
    else if !HasPrefix(addr, "0x") then Err(MissingPrefix)
    else if !IsHexAddress(addr) then Err(InvalidAddress)
    else Ok(Registration(parts[1], addr, "out/" + ReplaceAll(contract, ":", "/") + ".json"))
  }

  /** The contract argument has the form `file:Name` exactly when it holds one colon. */
  lemma TwoPartsIffOneColon(contract: string)
    ensures |Split(contract, ":")| == 2 <==> Count(contract, ':') == 1
  {
    SplitCharCount(contract, ':');
  }

  /** The position of the only occurrence of `c`, with no `c` before or after it. */
  lemma OnlyOccurrence(s: string, c: char)
    requires Count(s, c) == 1
    ensures var i := Index(s, [c]);
      0 <= i < |s| && s[i] == c && c !in s[..i] && c !in s[i + 1..]
  {
    IndexChar(s, c);
    var i := Index(s, [c]);
    if i < 0 {
      CountZero(s, c);
    } else {
      assert s == s[..i] + [c] + s[i + 1..];
      CountAppend(s[..i] + [c], s[i + 1..], c);
      CountAppend(s[..i], [c], c);
      CountZero(s[i + 1..], c);
    }
  }

  /** With one `c` at `i`, Split gives the two sides and ReplaceAll puts `rep` in its place. */
  lemma OneOccurrenceSides(s: string, c: char, rep: string)
    requires Count(s, c) == 1
    ensures var i := Index(s, [c]);
      0 <= i < |s| &&
      Split(s, [c]) == [s[..i], s[i + 1..]] &&
      ReplaceAll(s, [c], rep) == s[..i] + rep + s[i + 1..]
  {
    OnlyOccurrence(s, c);
    var i := Index(s, [c]);
    SplitSingle(s, c, i);
    ReplaceSingle(s, c, rep, i);
  }

  /**
   * Whether `register` accepts its arguments: one colon in the contract
   * argument and an address of `0x` followed by exactly 40 hex digits.
   */
  lemma RegisterAccepts(addr: string, contract: string)
    ensures CheckRegister(addr, contract).Ok? <==>
      Count(contract, ':') == 1 && |addr| == 42 && addr[..2] == "0x" && AllHex(addr[2..])
  {
    TwoPartsIffOneColon(contract);
    HexAddressShapes(addr);
  }

  /** The contract format is checked first, then the prefix, then the address itself. */
  lemma RegisterErrorOrder(addr: string, contract: string)
    ensures Count(contract, ':') != 1 ==> CheckRegister(addr, contract) == Err(BadContractFormat)
    ensures Count(contract, ':') == 1 && !HasPrefix(addr, "0x") ==>
      CheckRegister(addr, contract) == Err(MissingPrefix)
    ensures Count(contract, ':') == 1 && HasPrefix(addr, "0x") && !IsHexAddress(addr) ==>
      CheckRegister(addr, contract) == Err(InvalidAddress)
  {
    TwoPartsIffOneColon(contract);
  }

  /** For `file:Name` the name is `Name` and the ABI is read from `out/file/Name.json`. */
  lemma RegisterPaths(addr: string, contract: string)
    requires CheckRegister(addr, contract).Ok?
    ensures var i := Index(contract, ":");
      0 <= i < |contract| &&
      CheckRegister(addr, contract).value.name == contract[i + 1..] &&
      CheckRegister(addr, contract).value.abiFile == "out/" + contract[..i] + "/" + contract[i + 1..] + ".json"
  {
    TwoPartsIffOneColon(contract);
    assert ":" == [':'];
    OneOccurrenceSides(contract, ':', "/");
    var i := Index(contract, ":");
    AbiPath(contract[..i], contract[i + 1..]);
  }

  lemma AbiPath(x: string, y: string)
    ensures "out/" + (x + "/" + y) + ".json" == "out/" + x + "/" + y + ".json"
  {
  }

  /** The deployed bytecode with one leading `0x` removed (strings.TrimPrefix). */
  function StripBytecode(code: string): (r: string)
    ensures HasPrefix(code, "0x") ==> "0x" + r == code
    ensures !HasPrefix(code, "0x") ==> r == code
  {
    var r := TrimPrefix(code, "0x");
    assert HasPrefix(code, "0x") ==> code == code[..2] + code[2..];
    r
  }

  /** Adding `0x` and stripping it is the identity, so at most one prefix is removed. */
  lemma StripAfterPrefix(h: string)
    ensures StripBytecode("0x" + h) == h
  {
    assert HasPrefix("0x" + h, "0x") && ("0x" + h)[2..] == h;
  }

  // ---------------------------------------------------------------------
  // devnet: argument to make target
  // ---------------------------------------------------------------------

  datatype DevnetError = InvalidCommand

  /** The make target `devnet` runs: the switch has `down`, `clean` and a default branch. */
  function DevnetTarget(arg: string): (r: Result<string, DevnetError>)
    ensures r.Ok? <==> arg == "up" || arg == "down" || arg == "clean"
    ensures r.Ok? ==> r.value == "devnet-" + arg
  {
    if arg != "up" && arg != "down" && arg != "clean" then Err(InvalidCommand)
    else if arg == "down" then Ok("devnet-down")
    else if arg == "clean" then Ok("devnet-clean")
    else Ok("devnet-up")
  }

  // ---------------------------------------------------------------------
  // isValidHex: the regexp ^[0-9a-fA-F]+$
  // ---------------------------------------------------------------------

  /** `[0-9a-fA-F]+` anchored at both ends: one digit, then either the end or more of the same. */
  function IsValidHex(s: string): bool
    decreases |s|
  {
    s != [] && IsHexDigit(s[0]) && (|s| == 1 || IsValidHex(s[1..]))
  }

  /** isValidHex holds exactly on non-empty strings of hexadecimal digits. */
  lemma {:induction false} IsValidHexIff(s: string)
    ensures IsValidHex(s) <==> s != [] && AllHex(s)
    decreases |s|
  {
    if |s| > 1 {
      IsValidHexIff(s[1..]);
      assert forall k :: 1 <= k < |s| ==> s[k] == s[1..][k - 1];
    }
  }

  /** A valid hex string of even length decodes; odd length is the decoder's ErrLength. */
  lemma IsValidHexDecodes(s: string)
    requires IsValidHex(s)
    ensures |s| % 2 == 0 ==> DecodeString(s).Ok?
    ensures |s| % 2 == 1 ==> DecodeString(s) == Err(ErrLength)
  {
    IsValidHexIff(s);
    DecodeOkIff(s);
    DecodeErrLengthIff(s);
  }

  // ---------------------------------------------------------------------
  // The generated PreinstallsExtension.sol
  // ---------------------------------------------------------------------

  function ExtensionHead(): string {
    "\n// SPDX-License-Identifier: MIT\npragma solidity ^0.8.0;\n\nlibrary PreinstallsExtension {\n"
  }
  function GetCodeHead(): string {
    "\nfunction getDeployedCode(address _addr, uint256 _chainID) internal pure returns (bytes memory out_) {\n        if (_addr == "
  }
  function GetCodeTail(): string {
    "Code;\n\n        revert(\"PreinstallsExtension: unknown preinstall\");\n    }\n\n    /// @notice Returns the name of the preinstall at the given address.\n    function getName(address _addr) internal pure returns (string memory out_) {\n        if (_addr == "
  }
  function GetNameTail(): string {
    "\";\n\n        revert(\"PreinstallsExtension: unnamed preinstall\");\n    }\n\n    function getPreinstallAddresses() internal pure returns (address[] memory out_) {\n        out_ = new address[](1);\n        out_[0] = "
  }
  function ExtensionTail(): string {
    ";\n    }\n}\n"
  }

  /** `address internal constant {{.Name}} = {{.Address}};` */
  function AddressDecl(name: string, addr: string): string {
    "address internal constant " + name + " = " + addr + ";"
  }

  /** `hex"{{.HexDeployedCode}}"` */
  function HexLiteral(code: string): string {
    "hex\"" + code + "\""
  }

  /** `bytes internal constant {{.Name}}Code = hex"{{.HexDeployedCode}}";` */
  function CodeDecl(name: string, code: string): string {
    "bytes internal constant " + name + "Code = " + HexLiteral(code) + ";"
  }

  /** The three library functions, each comparing against the preinstall's address constant. */
  function ExtensionFunctions(name: string): string {
    GetCodeHead() + name + ") return " + name + GetCodeTail() + name + ") return \"" + name + GetNameTail() + name
  }

  /** The head of the library up to its address constant. */
  function ExtensionDecls(name: string, addr: string): string {
    ExtensionHead() + "\t" + AddressDecl(name, addr) + "\n\t"
  }

  /** The template filled in with the registration's name, address and bytecode; nothing is escaped. */
  function RenderExtension(name: string, addr: string, code: string): string {
    ExtensionDecls(name, addr) + CodeDecl(name, code) + ("\n" + ExtensionFunctions(name) + ExtensionTail())
  }

  /** The library declares the address constant under the preinstall's name. */
  lemma ExtensionDeclaresAddress(name: string, addr: string, code: string)
    ensures Contains(RenderExtension(name, addr, code), "address internal constant " + name + " = " + addr + ";")
  {
    var decls := ExtensionDecls(name, addr);
    var withCode := decls + CodeDecl(name, code);
    ContainsMiddle(ExtensionHead() + "\t", AddressDecl(name, addr), "\n\t");
    ContainsFront(decls, CodeDecl(name, code));
    ContainsTrans(withCode, decls, AddressDecl(name, addr));
    ContainsFront(withCode, "\n" + ExtensionFunctions(name) + ExtensionTail());
    ContainsTrans(RenderExtension(name, addr, code), withCode, AddressDecl(name, addr));
  }

  /** The library embeds the bytecode verbatim as a hex literal. */
  lemma ExtensionEmbedsCode(name: string, addr: string, code: string)
    ensures Contains(RenderExtension(name, addr, code), "hex\"" + code + "\"")
  {
    ContainsMiddle("bytes internal constant " + name + "Code = ", HexLiteral(code), ";");
    ContainsMiddle(ExtensionDecls(name, addr), CodeDecl(name, code), "\n" + ExtensionFunctions(name) + ExtensionTail());
    ContainsTrans(RenderExtension(name, addr, code), CodeDecl(name, code), HexLiteral(code));
  }
}
