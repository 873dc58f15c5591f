# oproller preinstall and precompile commands in Dafny

This project models the part of the oproller command-line tool that turns a
contract into a preinstall of an OP-stack L2 or a precompile of op-geth:

- `preinstall register [address] [file.sol:Name]` checks its arguments,
  strips the `0x` from the deployed bytecode and renders the
  `PreinstallsExtension.sol` library. It then patches the L2 genesis script
  (`handleRegisterL2Genesis`) with three text edits. Each edit is guarded by
  a marker string:
  - the first replaces every `pragma solidity d.d.d;` line with the library
    import;
  - the second appends a helper function before the last `}`;
  - the third extends the `_setPreinstallCode(Preinstalls.BeaconBlockRoots);`
    call site with a loop.
- `preinstall devnet [up|down|clean]` picks a make target; `isValidHex`
  checks for a non-empty run of hexadecimal digits.
- `precompile new [name] [address]` trims its arguments and checks the
  address with `hex.DecodeString`. It derives the struct name (title case,
  separators removed) and the package name (that name in lower case),
  renders the stub package and lists the steps it takes.
- The `Handle` of `cmd/precompile/handle.go` edits op-geth's parsed
  `core/vm/contracts.go`:
  - `addMapItem` appends a `common.BytesToAddress(...)` entry to the
    `PrecompiledContractsCancun` map literal;
  - `addImport` appends the stub package's import to the first import
    declaration, or creates one.

Modules:

- `Results`: the result and option types.
- `GoStrings`: Go's `strings` functions as the commands use them (`Split`,
  `ReplaceAll`, `Contains`, `Index`, `LastIndex`, `TrimSpace`, `ToLower` and
  the others).
- `Hex`: `hex.DecodeString`, `hex.EncodeToString` and `common.IsHexAddress`.
- `StrConv`: `strconv.Quote` and its inverse.
- `GenesisPatch`: the pragma regular expression, as a small matcher, and the
  three edits of the genesis script, as composed functions.
- `PragmaFacts`, `PragmaReplace`, `GenesisFacts`: what those edits do,
  including the idempotence of the whole patch.
- `Preinstall`: `register`'s checks, `devnet`, `isValidHex` and the library
  template.
- `Precompile`: `precompile new`.
- `GoAst`: the syntax tree nodes the handle updates in place. These are
  classes: a composite literal's elements, a declaration's specs and a
  file's declarations.
- `PrecompileHandle`: the handle's methods, as imperative methods over
  those classes.

A panic in the source is an outcome in the model, never a precondition.
Two panics are modelled this way:

- `strContent[:lastClosing]` with no `}` in the text becomes
  `GenesisPatch.SlicePanic`.
- The index and type assertion `valueSpec.Values[idx].(*ast.CompositeLit)`
  become `PrecompileHandle.Panic`.

Behaviour a reader may not expect (the model follows the code):

- The genesis patch is not idempotent on every input. It is proved
  idempotent at least on scripts in which the import marker (or a pragma
  line) stands before some `}` (`GenesisFacts.WellFormed`); that condition
  is sufficient, not necessary.
- `precompile new` accepts any even number of hex digits after `0x`,
  including none; it does not require 20 bytes.
- `addImport` does not look for an existing import of the package, so a
  second registration adds it again.
- `addMapItem` adds one entry for every name `PrecompiledContractsCancun` in
  a value spec, so a literal bound under that name twice gets two entries.

## Model

| member | source | states |
|---|---|---|
| Hex.DecodeString | cmd/precompile/precompile.go:84 | a successful decode yields one byte for every two characters |
| Hex.DecodeOkIff | cmd/precompile/precompile.go:84-86 | decoding succeeds exactly on strings of even length made of hexadecimal digits |
| Hex.DecodeErrLengthIff | cmd/precompile/precompile.go:84-86 | the error is ErrLength exactly when every character is a digit but their number is odd |
| Hex.Utf8FirstByte | cmd/precompile/precompile.go:84-86 | the byte hex.InvalidByteError reports for a character: the character itself below U+0080, otherwise a UTF-8 lead byte between 0xC2 and 0xF4 |
| Hex.DecodeInvalidIsFirst | cmd/precompile/precompile.go:84-86 | an InvalidByte error carries the first UTF-8 byte of the first character that is not a hexadecimal digit, and every character before it is a digit |
| Hex.InvalidByteExamples | cmd/precompile/precompile.go:84-86 | `g0` is reported as the byte `g`; `é` is reported as its lead byte 0xC3, not as the character |
| Hex.DecodeEncode | cmd/precompile/precompile.go:84 | decoding the hex encoding of any byte sequence gives those bytes back |
| Hex.HexAddressShapes | cmd/preinstall/preinstall.go:119-121 | common.IsHexAddress holds exactly on 40 hex digits, or on `0x`/`0X` followed by 40 hex digits |
| Preinstall.CheckRegister | cmd/preinstall/preinstall.go:110-124 | an accepted registration keeps the address, which has the `0x` prefix and is a hex address, and its name is the second part of the contract argument |
| Preinstall.TwoPartsIffOneColon | cmd/preinstall/preinstall.go:110-113 | splitting on `:` gives two parts exactly when the argument holds one colon |
| Preinstall.RegisterAccepts | cmd/preinstall/preinstall.go:110-121 | the arguments are accepted exactly when the contract argument holds one colon and the address is `0x` and 40 hex digits |
| Preinstall.RegisterErrorOrder | cmd/preinstall/preinstall.go:110-121 | the contract format is reported first, then the missing prefix, then the invalid address |
| Preinstall.RegisterPaths | cmd/preinstall/preinstall.go:114-124 | for `file:Name` the name is `Name` and the ABI is read from `out/file/Name.json` |
| Preinstall.StripBytecode | cmd/preinstall/preinstall.go:134-135 | one leading `0x` is removed and the rest is kept; without the prefix the code is unchanged |
| Preinstall.StripAfterPrefix | cmd/preinstall/preinstall.go:135 | stripping `0x` + h gives h, so a second `0x` is kept |
| Preinstall.DevnetTarget | cmd/preinstall/preinstall.go:195-215 | only `up`, `down` and `clean` are accepted, and each runs the make target `devnet-` + argument |
| Preinstall.IsValidHexIff | cmd/preinstall/preinstall.go:278-282 | the anchored pattern holds exactly on non-empty strings of hexadecimal digits |
| Preinstall.IsValidHexDecodes | cmd/preinstall/preinstall.go:278-282 | a valid hex string of even length decodes; one of odd length is ErrLength |
| Preinstall.ExtensionDeclaresAddress | cmd/preinstall/preinstall.go:17-43 | the rendered library declares the address constant under the preinstall's name |
| Preinstall.ExtensionEmbedsCode | cmd/preinstall/preinstall.go:23 | the rendered library embeds the bytecode verbatim in a hex literal |
| PragmaFacts.PragmaMatchComplete | cmd/preinstall/preinstall.go:230 | every `pragma solidity d.d.d;` directive is matched in full, whatever follows it |
| PragmaFacts.CaretPragmaNotMatched | cmd/preinstall/preinstall.go:230 | a caret range such as `pragma solidity ^0.8.0;` is not matched |
| PragmaFacts.PragmaMatchSound | cmd/preinstall/preinstall.go:230 | every match is a whole directive with three non-empty digit runs |
| PragmaReplace.PragmaLineReplaced | cmd/preinstall/preinstall.go:242 | a pragma line is replaced by the import text, and the text before and after it is processed as before |
| PragmaReplace.ReplaceNoPragma | cmd/preinstall/preinstall.go:242 | without a pragma directive at a line start the replacement changes nothing |
| PragmaReplace.ReplaceKeepsChar | cmd/preinstall/preinstall.go:242 | a line break or a closing brace survives the replacement |
| PragmaReplace.ReplacePragmasByLine | cmd/preinstall/preinstall.go:242 | the replacement edits each line of the text on its own and keeps the line breaks |
| GenesisPatch.FunctionEdit | cmd/preinstall/preinstall.go:256-259 | with the helper's name already present the text is returned unchanged; otherwise the slice panics exactly when the text has no `}`, and else everything from the last `}` on is replaced by the helper and a new `}` |
| GenesisFacts.ImportEditByLine | cmd/preinstall/preinstall.go:241-243 | with the library name present the text is unchanged; otherwise every line that starts with a pragma directive has it replaced |
| GenesisFacts.ImportEditAt | cmd/preinstall/preinstall.go:241-243 | with the library name absent, a pragma line is replaced by the import text |
| GenesisFacts.ImportEditNoPragma | cmd/preinstall/preinstall.go:241-243 | a text without pragma lines is left unchanged |
| GenesisFacts.FunctionEditKeepsPrefix | cmd/preinstall/preinstall.go:256-258 | the text before the last `}` is kept and followed by the helper function and a closing brace |
| GenesisFacts.CallSiteEditSpec | cmd/preinstall/preinstall.go:262-268 | with the marker present, or no call site, nothing changes; otherwise every call site is replaced by the loop |
| GenesisFacts.ScriptGuarded | cmd/preinstall/preinstall.go:232-267 | each inserted text holds the marker that guards its own edit |
| GenesisFacts.PatchWithIdempotent | cmd/preinstall/preinstall.go:241-268 | on a well-formed script, any three inserted texts that hold their markers give a patch that does not panic, and patching its result changes nothing |
| GenesisFacts.PragmaScriptWellFormed | cmd/preinstall/preinstall.go:230-243 | a script with a pragma directive on a line of its own and a `}` after it, not yet naming the library, is well formed, so the patch applies to it |
| GenesisFacts.PatchSucceeds | cmd/preinstall/preinstall.go:241-268 | the patch of a well-formed script does not panic |
| GenesisFacts.PatchIdempotent | cmd/preinstall/preinstall.go:241-268 | patching the patched script again leaves it as it is |
| Precompile.ValidateAddress | cmd/precompile/precompile.go:80-86 | the prefix error is reported exactly when `0x` is missing; an accepted address keeps its prefix |
| Precompile.AddressAccepts | cmd/precompile/precompile.go:80-86 | an address is accepted exactly when it is `0x` and an even number of hex digits |
| Precompile.AddressOddLength | cmd/precompile/precompile.go:84-86 | an odd number of hex digits after `0x` is reported as ErrLength |
| Precompile.AddressInvalidByte | cmd/precompile/precompile.go:84-86 | an InvalidByte error carries the first UTF-8 byte of the first non-hex character after `0x`, and everything between `0x` and it is hex |
| Precompile.HexAddressUntrimmed | cmd/precompile/precompile.go:79 | trimming leaves a hex address unchanged |
| Precompile.ShortAddressAccepted | cmd/precompile/precompile.go:79-86 | `0x` and `0x01` are unchanged by trimming and accepted |
| Precompile.ShortAddressesAccepted | cmd/precompile/precompile.go:79-86 | addresses far shorter than 20 bytes, even the bare `0x`, are accepted |
| Precompile.TitleSplit | cmd/precompile/precompile.go:89 | title case capitalises each space-separated word: its first letter is upper-cased, and digits before that letter are kept |
| Precompile.DigitLedWord | cmd/precompile/precompile.go:89 | a word that starts with a digit has its first letter upper-cased: `2fa` becomes `2Fa` |
| Precompile.StructNameWords | cmd/precompile/precompile.go:88-90 | the struct name is the capitalised words of the name, split at hyphens and spaces, run together |
| Precompile.StructNameClean | cmd/precompile/precompile.go:88-90 | the struct name holds no hyphen and no space |
| Precompile.PackageNameDropsSeparators | cmd/precompile/precompile.go:96 | the package name is the name in lower case with its hyphens and spaces dropped |
| Precompile.MyContractExample | cmd/precompile/precompile.go:88-98 | `my-contract` gives the struct `MyContract` and the package `mycontract` |
| Precompile.StubDeclares | cmd/precompile/precompile.go:15-29 | the stub opens with its package clause and declares the struct type |
| Precompile.NewPrecompile | cmd/precompile/precompile.go:78-86 | the command fails exactly when the trimmed address is refused, with that error |
| Precompile.NewPrecompileSteps | cmd/precompile/precompile.go:92-138 | on success the directory, `go mod init` and `go work use` steps all use the trimmed name argument, the stub is written to `name/name.go` from that name (not from the struct name), `go mod init` gets the package name, the stub and the registration get the same struct and package names, the package name is the struct name in lower case, and the handle gets the trimmed address with its `0x` |
| Precompile.StubStepOf | cmd/precompile/precompile.go:100-131 | for a name that needs no trimming, the first step creates that directory and the stub step writes `name/name.go` with the name's package and struct names |
| Precompile.MyContractStubPath | cmd/precompile/precompile.go:88-131 | `my-contract` writes the stub to `my-contract/my-contract.go`, while the struct it declares is `MyContract` in package `mycontract` |
| StrConv.QuoteChar | cmd/precompile/handle.go:31 | a character is written as it is exactly when it needs no escape; otherwise it starts with a backslash |
| StrConv.UnquoteQuote | cmd/precompile/handle.go:31 | unquoting the quoted package name gives the name back |
| StrConv.QuotePlain | cmd/precompile/handle.go:31 | text with nothing to escape is quoted by adding the two double quotes |
| GoAst.FirstImport | cmd/precompile/handle.go:34-41 | the position of the first import declaration, or -1 when there is none |
| PrecompileHandle.ImportNamesPackage | cmd/precompile/handle.go:28-33 | the import spec's path is a quoted literal that reads back as the package name |
| PrecompileHandle.AddImport | cmd/precompile/handle.go:27-50 | the spec is appended to the first import declaration, or a new import declaration holding only the spec goes first; no other declaration changes, and the result is true |
| PrecompileHandle.AddImportTwice | cmd/precompile/handle.go:27-50 | two calls append the same spec twice |
| PrecompileHandle.Stop | cmd/precompile/handle.go:60-69 | the loop over the names stops at the first map name without a composite literal, or after the last name |
| PrecompileHandle.AppendAtMapNames | cmd/precompile/handle.go:60-73 | the loop panics exactly when some map name lacks a composite literal; each literal gets one entry per map name bound to it before that point |
| PrecompileHandle.AddMapItem | cmd/precompile/handle.go:52-76 | other nodes are passed over; a value spec is edited as in the loop above |
| PrecompileHandle.MapEdit | cmd/precompile/handle.go:88 | the visitor runs over every value spec in turn and stops at the first panic; each literal gets one entry per matching name visited |
| PrecompileHandle.RegisterPrecompile | cmd/precompile/handle.go:78-89 | the map edit, then the import edit unless the map edit panicked; on a panic no declaration changes |
| PrecompileHandle.NoHits | cmd/precompile/handle.go:60-61 | a value spec without the map name is not edited and does not panic |
| PrecompileHandle.NoMapNoEdit | cmd/precompile/handle.go:60-61 | a file without the map name gets no entry and does not panic |
| PrecompileHandle.NotHitBefore | cmd/precompile/handle.go:60-70 | a literal bound under none of the first map names gets no entry from them |
| PrecompileHandle.HitsOnce | cmd/precompile/handle.go:60-70 | when the literals under the map name are all different, each gets exactly one entry |

## Left out

- Files, processes and the network are not modelled:
  - reading and writing files, and `os.Stat`/`os.Mkdir`;
  - `exec.Command` (make, go, forge, git, cp);
  - parsing and printing Go source (`parser.ParseFile`, `format.Node`);
  - reading the ABI JSON file.
  - `precompile new` is modelled as the list of steps it takes. `register` is modelled as its checks, the rendered library and the patch of the script's text.
- The template engine: the templates are written out as functions of the filled-in values. Nothing is escaped, as `text/template` does not escape.
- The regular expressions are written out as matchers for their two patterns, not as a regexp engine. These are `(?m)^pragma solidity \d+\.\d+\.\d+;` and `^[0-9a-fA-F]+$`.
- `cases.Title` is modelled for ASCII text. The ASCII letters are the cased characters, and the word start carries over digits and other characters before the first letter. `ToLower` is ASCII.
- Precompile.TitleSplit: spaces are the only word breaks; Go's title caser also starts a new word after most other punctuation (`a/b` gives `A/B`), and after two word-joining characters in a row such as `..`.
- Precompile.StructNameWords: inherits the word breaks of TitleSplit. Non-ASCII letters, which Go treats as cased, are kept as they are.
- `strconv.Quote` is exact for ASCII. Characters above U+007F are kept as they are, so Go's escaping of non-printable Unicode characters is not modelled.
- `ast.Inspect` is modelled as a visit of the value specs of the top-level declarations, in order. Value specs inside function bodies, and nodes the visitor ignores, are not visited.
- The store-back `valueSpec.Values[idx] = value` writes back the pointer just read, so a value spec's names and values are constants.
- `common.IsHexAddress` and `hex.DecodeString` are modelled from their documented behaviour. Their Go sources are not part of this model. `hex.DecodeString` is modelled on characters; since every hexadecimal digit is one byte, its first invalid byte is the first UTF-8 byte of the first character that is not a digit, which is what the model reports.
- `setup`, `version`, the root command, `preinstall create`, `preinstall build` and `precompile build` only run external tools and are not modelled.
- GenesisFacts.PatchIdempotent: assumes the script is well formed. Without that the patch need not be idempotent. Take a pragma line, a line break, `}` and then the library name:
  - the import edit is skipped, because the library name is present;
  - the function edit cuts away everything after the `}`, the library name included;
  - so a second run replaces the pragma line, which the first run left in place.
  - A script that is only the line `pragma solidity 0.8.15;` fails the same way: the `}` of the inserted import is then the last brace, so the cut removes the library name after it and a second run imports again.
- PrecompileHandle.MapEdit: entries appended before a panic stay in the literals; the model keeps them, but the program stops and writes nothing.
