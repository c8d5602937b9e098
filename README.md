# NFT storefront contract loader, in Dafny

This project models the Go loader of the NFT storefront contracts
(`lib/go/contracts/contracts.go`) and proves properties about it. The loader
reads the Cadence source of a contract and rewrites its import placeholders into
account addresses. A placeholder is a quoted import path that ends in
`/<Name>.cdc`. For each entry `name: address` of an address map, the loader
builds the regular expression `"[^"\s].*/<Name>.cdc"` and replaces every match
with the address as `withHexPrefix` returns it: `0x` is put in front of a
non-empty address that does not already start with it.
`NFTStorefront` is this rewriting applied to the storefront contract with two
entries: `FungibleToken` and `NonFungibleToken`.

The model has six modules:

- `Options` (`options.dfy`): the optional-value datatype.
- `HexPrefix` (`hex_prefix.dfy`): `withHexPrefix`.
- `Placeholder` (`placeholder.dfy`): a hand-written matcher for the one
  pattern shape, with `ReplaceAllString` on top of it.
  - A match opens at a `"` followed by a character that is neither `"` nor
    white space.
  - The greedy `.*` runs to the rightmost closing `/<Name>?cdc"` on the same
    line. `?` stands for the unescaped `.` of the pattern: any character but a
    newline.
  - Among the opening positions the leftmost wins. Scanning resumes after the
    match.
  - `MatchesFrom` lists the replaced spans. `Stitch` copies the text between
    them and puts the replacement in place of each span, quotes included.
- `ReplaceFacts` (`replace_facts.dfy`): what one replacement pass does to a
  text.
- `Contracts` (`contracts.dfy`): the loop over the address map,
  `ReadWithAddresses` and `NFTStorefront`, with properties of the whole loop.
- `ImportExample` (`import_example.dfy`): one import line worked through
  `NFTStorefront`.

Go leaves the iteration order of a map unspecified. The address map is
therefore a sequence of `Binding`s, processed in the order given, and every
property is proved for every order. `NFTStorefront` takes a `ftFirst` flag that
picks one of the two possible orders of its two entries.

The main theorem is `ReplaceFacts.OutputMatchFromInput`. It concerns a
replacement that holds neither `"` nor `/`. Every match of any name in the
output of a pass is a match of a different name that the input already held. It
implies two corollaries:

- after the pass for a name, no placeholder of that name is left;
- a pass never creates a placeholder for any name.

Lifted to the loop, these become `ApplyNoMatchRemains` and
`ApplyPreservesAbsence`.

## Model

| member | source | states |
|---|---|---|
| HexPrefix.WithHexPrefix | lib/go/contracts/contracts.go:57-67 | the result is empty exactly for the empty address; a non-empty result starts with "0x"; the address comes back unchanged exactly when it is empty or already starts with "0x", and otherwise the result is "0x" followed by the address; a one-character address, on which the slice panics, is excluded |
| HexPrefix.WithHexPrefixIdempotent | lib/go/contracts/contracts.go:57-67 | applying the prefix to its own result changes nothing |
| HexPrefix.WithHexPrefixKeepsAddress | lib/go/contracts/contracts.go:62-66 | the result is the address with at most two characters in front of it |
| HexPrefix.WithHexPrefixChars | lib/go/contracts/contracts.go:62-66 | the prefix brings in no character other than '0' and 'x': any other character is in the result exactly when it is in the address |
| Placeholder.Greedy | lib/go/contracts/contracts.go:38 | from an opening quote, the greedy `.*` stops at the last closing that a match from there reaches on the same line; no closing means no match from that position |
| Placeholder.Leftmost | lib/go/contracts/contracts.go:38-39 | the scan finds the leftmost position at or after the start from which the pattern matches, with its greedy closing, and no match opens before it; no result means no match opens anywhere after the start |
| Placeholder.ReplaceAll | lib/go/contracts/contracts.go:38-39 | `placeholder.ReplaceAllString(code, address)`: each span that `MatchesFrom` finds, quotes included, becomes the replacement and the text between spans is copied; a text holding no placeholder of the name comes back unchanged |
| Placeholder.MatchesFrom | lib/go/contracts/contracts.go:39 | the spans `ReplaceAllString` replaces form a leftmost-greedy segmentation of the text: each opens at the leftmost match position after the previous span, ends at its greedy closing, and no match opens after the last one |
| ReplaceFacts.ReplacedSpansUnique | lib/go/contracts/contracts.go:39 | the text determines the replaced spans: two leftmost-greedy segmentations of the same text are equal |
| ReplaceFacts.ReplaceAllIsStitch | lib/go/contracts/contracts.go:39 | the output is the text with each span of that segmentation, both quotes included, replaced by the replacement string, and the text between the spans copied |
| ReplaceFacts.ReplaceAllKeepsUnmatchedPrefix | lib/go/contracts/contracts.go:39 | the text before the first placeholder is copied into the output unchanged |
| ReplaceFacts.ImportPathReplaced | lib/go/contracts/contracts.go:38-39 | a line made of quote-free text, then a quoted path `"<rel>/Name.cdc"` whose part `<rel>` is non-empty, holds no newline and starts with neither `"` nor white space, becomes that text followed by the replacement: the path goes, quotes included |
| ReplaceFacts.NoRoomForMatch | lib/go/contracts/contracts.go:38 | when every double quote of a text is too close to its end for a closing of the name, the text holds no placeholder of that name |
| ReplaceFacts.OutputMatchFromInput | lib/go/contracts/contracts.go:38-39 | when the replacement holds no quote and no slash, every match in the output of a pass is a match of a different name that the input already held |
| ReplaceFacts.ReplaceAllLeavesNoMatch | lib/go/contracts/contracts.go:38-39 | after the pass for a name, no placeholder of that name is left |
| ReplaceFacts.ReplaceAllKeepsAbsence | lib/go/contracts/contracts.go:38-39 | for a replacement holding no `"` and no `/`, a pass creates no placeholder: a name with no placeholder in the input has none in the output |
| Contracts.Misspelled | lib/go/contracts/contracts.go:23-29 | a name is warned about exactly when it is in the address map and not among the five names of the `RecognizedAddresses` set (`FungibleToken`, `FlowToken`, `NonFungibleToken`, `ExampleNFT`, `NFTStorefront`), and there are never more warnings than entries |
| Contracts.Substitute | lib/go/contracts/contracts.go:38-39 | one pass of the loop: every placeholder of the entry's name becomes its address with the hex prefix; code holding no placeholder of that name is left as it is |
| Contracts.ApplyAddresses | lib/go/contracts/contracts.go:33-40 | the code after the loop has substituted the entries one after the other, in map order; code holding no placeholder of any name in the map comes back unchanged |
| Contracts.ReplaceAddresses | lib/go/contracts/contracts.go:31-42 | the loop leaves the code with every entry substituted in map order and returns the warnings of the unrecognized names; an unrecognized entry is substituted like any other |
| Contracts.ReadWithAddresses | lib/go/contracts/contracts.go:44-48 | the result is the code rewritten by the whole address map |
| Contracts.StorefrontBindings | lib/go/contracts/contracts.go:51-54 | the storefront map has exactly two entries: `FungibleToken` bound to the fungible-token address and `NonFungibleToken` bound to the non-fungible-token address |
| Contracts.StorefrontBindingsValid | lib/go/contracts/contracts.go:50-55 | both storefront entries can be processed, in either order, for any addresses of a length other than one that hold no `$` |
| Contracts.NFTStorefront | lib/go/contracts/contracts.go:50-55 | the result is the code rewritten by the two-entry storefront map |
| Contracts.PlainStaysPlain | lib/go/contracts/contracts.go:39 | an address without quotes and slashes keeps that property after the hex prefix is added |
| Contracts.ApplyAddressesAppend | lib/go/contracts/contracts.go:33-40 | processing two maps one after the other is processing their concatenation |
| Contracts.ApplyPreservesAbsence | lib/go/contracts/contracts.go:33-40 | the loop creates no placeholder of any name that the code did not already hold |
| Contracts.ApplyNoMatchRemains | lib/go/contracts/contracts.go:33-40 | after the loop, no placeholder of any processed name is left, for any order of the entries |
| Contracts.UnmatchedEntryIsNoOp | lib/go/contracts/contracts.go:33-40 | an entry whose name has no placeholder left when its turn comes changes nothing: dropping it gives the same code |
| Contracts.UnrecognizedStillReplaced | lib/go/contracts/contracts.go:34-39 | an unrecognized name draws one warning and its entry is still substituted, for every address; for an address holding no `"` and no `/`, no placeholder of the name is left afterwards |
| Contracts.StorefrontReplacesBoth | lib/go/contracts/contracts.go:50-55 | for addresses holding no `"` and no `/`, no `FungibleToken` or `NonFungibleToken` placeholder is left after `NFTStorefront`, in either order |
| Contracts.StorefrontKeepsOthersAbsent | lib/go/contracts/contracts.go:50-55 | for addresses holding no `"` and no `/`, `NFTStorefront` creates no placeholder of any other name |
| Contracts.StorefrontIdentity | lib/go/contracts/contracts.go:50-55 | code holding neither storefront placeholder passes through `NFTStorefront` unchanged |
| ImportExample.FtImportReplaced | lib/go/contracts/contracts.go:38-39 | `import FungibleToken from "./FungibleToken.cdc"` becomes `import FungibleToken from 0x1`, without quotes |
| ImportExample.FtImportHasNoNftMatch | lib/go/contracts/contracts.go:38 | that line holds no `NonFungibleToken` placeholder |
| ImportExample.StorefrontOnFtImport | lib/go/contracts/contracts.go:50-55 | `NFTStorefront` with addresses 0x1 and 0x2 turns that line into `import FungibleToken from 0x1`, in either order |

## Quoted versus bare addresses

Lines 14-15 of `lib/go/contracts/contracts_test.go` expect the output of
`NFTStorefront("0x1", "0x2")` to contain `import FungibleToken from "0x1"`, with
the address in quotes. The pattern at line 38 of `contracts.go` matches the
opening and the closing quote too. The model therefore produces the bare
`import FungibleToken from 0x1` from a quoted relative path
(`ImportExample.StorefrontOnFtImport`). The model follows the code. Whether the
test expectation can hold depends on the text of the storefront contract, which
is not part of this model.

## Left out

- HexPrefix.WithHexPrefix: a one-character address makes the Go slice `address[0:2]` panic; the model requires that address away instead of modelling the panic.
- Contracts.ReplaceAddresses: `ReplaceAllString` expands `$` in the replacement as a template; the model requires addresses without `$`, for which the replacement is literal.
- Contracts.ReplaceAddresses: import names are required to be identifiers (letters, digits, `_`); a name holding regular-expression metacharacters would change the pattern, and the Go regular-expression engine beyond this one pattern shape is not part of this model.
- Contracts.ReplaceAddresses: the misspelling warning printed with `fmt.Printf` is returned as the list of names warned about, not as console output.
- Contracts.ApplyNoMatchRemains: proved only for addresses holding no `"` and no `/`; an address with those characters could form a new placeholder in the rewritten text.
- ReplaceFacts.ReplaceAllLeavesNoMatch: proved only for replacements holding no `"` and no `/`, for the same reason.
- ReplaceFacts.ReplaceAllKeepsAbsence: proved only for replacements holding no `"` and no `/`, for the same reason.
- Contracts.ApplyPreservesAbsence: proved only for addresses holding no `"` and no `/`, for the same reason.
- Contracts.UnrecognizedStillReplaced: that no placeholder of the name is left is proved only for addresses holding no `"` and no `/`, for the same reason; that the entry is substituted holds for every address.
- Contracts.StorefrontReplacesBoth: proved only for addresses holding no `"` and no `/`, for the same reason.
- Contracts.StorefrontKeepsOthersAbsent: proved only for addresses holding no `"` and no `/`, for the same reason.
- Contracts.ReadWithAddresses: the file lookup through the embedded assets (`assets.MustAssetString`) is not part of this model; the code text is a parameter, and the conversion of the result to a byte slice is not modelled.
- Contracts.NFTStorefront: the contract file name `contracts/NFTStorefront.cdc` and the transaction and script file names of lines 13-20 only select embedded assets and are not modelled; the storefront code is a parameter.
- Contracts.NFTStorefront: the Go map iteration order is a `ftFirst` parameter instead of a nondeterministic choice.
- Independence of the result from the order of different names is not proved: a greedy match for one name can swallow another name's path on the same line.
- Strings are sequences of characters, not UTF-8 bytes: Go's `address[0:2]` slices bytes and the `.` of the pattern matches one UTF-8 code point, which differ from characters only for non-ASCII text.
- The Cadence storefront contract itself (listings, purchases, sale cuts, cleanup), the emulator test harness under `lib/go/test` and the template rewriting of `lib/go/test/templates.go` are not part of this model.
