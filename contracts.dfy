/**
  * The contract-source loader of lib/go/contracts/contracts.go: the import
  * placeholders of a Cadence source text are rewritten, one import name after
  * the other, into the hex-prefixed addresses of an address map.
  *
  * Go leaves the iteration order of a map unspecified, so the address map is
  * a sequence of bindings, processed in the order given; every property below
  * holds for every order.
  */
module Contracts {
  import opened HexPrefix
  import opened Placeholder
  import opened ReplaceFacts

  /** One entry `importFile: address` of the address map. */
  datatype Binding = Binding(importFile: string, address: string)

  /** The import names the loader knows; any other name draws a warning. */
  const RecognizedAddresses: set<string> :=
    {"FungibleToken", "FlowToken", "NonFungibleToken", "ExampleNFT", "NFTStorefront"}

  /**
    * An entry the loader can process: the name pastes into the pattern
    * without metacharacters, the address does not make `withHexPrefix` panic,
    * and it holds no `$`, which `ReplaceAllString` would expand.
    */
  predicate ValidBinding(b: Binding) {
    IsIdentifier(b.importFile) && |b.address| != 1 && '$' !in b.address
  }

  predicate ValidBindings(bs: seq<Binding>) {
    forall k :: 0 <= k < |bs| ==> ValidBinding(bs[k])
  }

  /**
    * An address that can neither open nor close a placeholder once written
    * into the text: it has no double quote and no slash.
    */
  predicate PlainAddress(address: string) {
    '"' !in address && '/' !in address
  }

  predicate PlainBindings(bs: seq<Binding>) {
    forall k :: 0 <= k < |bs| ==> PlainAddress(bs[k].address)
  }

  /**
    * One iteration of the loop: every placeholder of the name becomes the
    * prefixed address, and code without such a placeholder is left as it is.
    */
  function Substitute(code: string, b: Binding): (r: string)
    requires ValidBinding(b)
    ensures !HasMatch(code, b.importFile) ==> r == code
  {
    ReplaceAll(code, b.importFile, WithHexPrefix(b.address))
  }

  /**
    * The code after the loop has processed the entries of `bs`, in order.
    * Code holding no placeholder of any name in the map comes back unchanged.
    */
  function ApplyAddresses(code: string, bs: seq<Binding>): (r: string)
    requires ValidBindings(bs)
    ensures (forall k :: 0 <= k < |bs| ==> !HasMatch(code, bs[k].importFile)) ==> r == code
    decreases |bs|
  {
    if bs == [] then code
    else
      assert forall k :: 0 <= k < |bs| - 1 ==> bs[..|bs| - 1][k] == bs[k];
      Substitute(ApplyAddresses(code, bs[..|bs| - 1]), bs[|bs| - 1])
  }

  /** The names, in processing order, for which the loop prints its misspelling warning. */
  function Misspelled(bs: seq<Binding>): (r: seq<string>)
    ensures |r| <= |bs|
    ensures forall n :: n in r <==>
      n !in RecognizedAddresses && exists k :: 0 <= k < |bs| && bs[k].importFile == n
    decreases |bs|
  {
    if bs == [] then []
    else
      var rest := Misspelled(bs[..|bs| - 1]);
      var last := bs[|bs| - 1];
      assert forall k :: 0 <= k < |bs| - 1 ==> bs[..|bs| - 1][k] == bs[k];
      if last.importFile in RecognizedAddresses then rest else rest + [last.importFile]
  }

  /**
    * `replaceAddresses`: the loop over the address map.  An unrecognized name
    * only adds a warning; its entry is substituted like any other.
    */
  method ReplaceAddresses(code: string, addressMap: seq<Binding>) returns (result: string, warnings: seq<string>)
    requires ValidBindings(addressMap)
    ensures result == ApplyAddresses(code, addressMap)
    ensures warnings == Misspelled(addressMap)
  {
    result, warnings := code, [];
    var i := 0;
    while i < |addressMap|
      invariant 0 <= i <= |addressMap|
      invariant result == ApplyAddresses(code, addressMap[..i])
      invariant warnings == Misspelled(addressMap[..i])
    {
      var b := addressMap[i];
      assert addressMap[..i + 1][..i] == addressMap[..i];
      if b.importFile !in RecognizedAddresses {
        warnings := warnings + [b.importFile];
      }
      result := ReplaceAll(result, b.importFile, WithHexPrefix(b.address));
      i := i + 1;
    }
    assert addressMap[..i] == addressMap;
  }

  /**
    * `ReadWithAddresses` on the text of the requested file: the text is
    * passed in, and the result is the rewritten text.
    */
  method ReadWithAddresses(code: string, addressMap: seq<Binding>) returns (result: string, warnings: seq<string>)
    requires ValidBindings(addressMap)
    ensures result == ApplyAddresses(code, addressMap)
    ensures warnings == Misspelled(addressMap)
  {
    result, warnings := ReplaceAddresses(code, addressMap);
  }

  /**
    * The two-entry address map of `NFTStorefront`, in either of the two orders
    * in which Go may iterate over it.
    */
  function StorefrontBindings(ftAddress: string, nftAddress: string, ftFirst: bool): (r: seq<Binding>)
    ensures |r| == 2
    ensures {r[0].importFile, r[1].importFile} == {"FungibleToken", "NonFungibleToken"}
    ensures forall k :: 0 <= k < 2 && r[k].importFile == "FungibleToken" ==> r[k].address == ftAddress
    ensures forall k :: 0 <= k < 2 && r[k].importFile == "NonFungibleToken" ==> r[k].address == nftAddress
  {
    var ft := Binding("FungibleToken", ftAddress);
    var nft := Binding("NonFungibleToken", nftAddress);
    if ftFirst then [ft, nft] else [nft, ft]
  }

  /** Both storefront import names are plain identifiers. */
  lemma StorefrontNamesAreIdentifiers()
    ensures IsIdentifier("FungibleToken") && IsIdentifier("NonFungibleToken")
  {
  }

  /** The storefront map is one the loop can process, in either order. */
  lemma StorefrontBindingsValid(ftAddress: string, nftAddress: string, ftFirst: bool)
    requires StorefrontAddresses(ftAddress, nftAddress)
    ensures ValidBindings(StorefrontBindings(ftAddress, nftAddress, ftFirst))
  {
    StorefrontNamesAreIdentifiers();
  }

  /** The addresses `NFTStorefront` accepts. */
  predicate StorefrontAddresses(ftAddress: string, nftAddress: string) {
    |ftAddress| != 1 && '$' !in ftAddress && |nftAddress| != 1 && '$' !in nftAddress
  }

  /**
    * `NFTStorefront`: the storefront contract's text with its fungible-token
    * and non-fungible-token imports pointed at the given addresses.
    */
  method NFTStorefront(code: string, ftAddress: string, nftAddress: string, ftFirst: bool) returns (result: string)
    requires StorefrontAddresses(ftAddress, nftAddress)
    ensures ValidBindings(StorefrontBindings(ftAddress, nftAddress, ftFirst))
    ensures result == ApplyAddresses(code, StorefrontBindings(ftAddress, nftAddress, ftFirst))
  {
    var bs := StorefrontBindings(ftAddress, nftAddress, ftFirst);
    StorefrontBindingsValid(ftAddress, nftAddress, ftFirst);
    var warnings;
    result, warnings := ReadWithAddresses(code, bs);
  }

  /** The prefixed form of a plain address is still plain. */
  lemma PlainStaysPlain(address: string)
    requires |address| != 1 && PlainAddress(address)
    ensures PlainAddress(WithHexPrefix(address))
  {
    WithHexPrefixChars(address, '"');
    WithHexPrefixChars(address, '/');
  }

  /** A map made of two processable maps is processable. */
  lemma ValidBindingsAppend(xs: seq<Binding>, ys: seq<Binding>)
    requires ValidBindings(xs) && ValidBindings(ys)
    ensures ValidBindings(xs + ys)
  {
    forall k | 0 <= k < |xs + ys|
      ensures ValidBinding((xs + ys)[k])
    {
      if k >= |xs| {
        assert (xs + ys)[k] == ys[k - |xs|];
      }
    }
  }

  /** The last entry of a map is processed after all the others. */
  lemma ApplyAddressesLast(code: string, bs: seq<Binding>)
    requires ValidBindings(bs) && bs != []
    ensures ValidBindings(bs[..|bs| - 1]) && ValidBinding(bs[|bs| - 1])
    ensures ApplyAddresses(code, bs) == Substitute(ApplyAddresses(code, bs[..|bs| - 1]), bs[|bs| - 1])
  {
  }

  /** Processing `xs + ys` is processing `xs`, then `ys` on the result. */
  lemma {:induction false} ApplyAddressesAppend(code: string, xs: seq<Binding>, ys: seq<Binding>)
    requires ValidBindings(xs) && ValidBindings(ys)
    ensures ValidBindings(xs + ys)
    ensures ApplyAddresses(code, xs + ys) == ApplyAddresses(ApplyAddresses(code, xs), ys)
    decreases |ys|
  {
    ValidBindingsAppend(xs, ys);
    if ys != [] {
      var zs, front, last := xs + ys, ys[..|ys| - 1], ys[|ys| - 1];
      assert zs[..|zs| - 1] == xs + front;
      assert zs[|zs| - 1] == last;
      ApplyAddressesAppend(code, xs, front);
      ApplyAddressesLast(code, zs);
      ApplyAddressesLast(ApplyAddresses(code, xs), ys);
    } else {
      assert xs + ys == xs;
    }
  }

  /**
    * The loop creates no placeholder: a name whose placeholder the text does
    * not hold has none after any entries were processed.
    */
  lemma {:induction false} ApplyPreservesAbsence(code: string, bs: seq<Binding>, other: string)
    requires ValidBindings(bs) && PlainBindings(bs) && IsIdentifier(other)
    requires !HasMatch(code, other)
    ensures !HasMatch(ApplyAddresses(code, bs), other)
    decreases |bs|
  {
    if bs != [] {
      var front, last := bs[..|bs| - 1], bs[|bs| - 1];
      assert PlainBindings(front) by {
        forall k | 0 <= k < |front| ensures PlainAddress(front[k].address) {
          assert front[k] == bs[k];
        }
      }
      ApplyAddressesLast(code, bs);
      ApplyPreservesAbsence(code, front, other);
      PlainStaysPlain(last.address);
      ReplaceAllKeepsAbsence(ApplyAddresses(code, front), last.importFile, WithHexPrefix(last.address), other);
    }
  }

  /**
    * After the loop, no placeholder of any processed name is left, whatever
    * the order of the entries, as long as no address holds a quote or a slash.
    */
  lemma {:induction false} ApplyNoMatchRemains(code: string, bs: seq<Binding>, k: nat)
    requires ValidBindings(bs) && PlainBindings(bs) && k < |bs|
    ensures !HasMatch(ApplyAddresses(code, bs), bs[k].importFile)
    decreases |bs|
  {
    var front, last := bs[..|bs| - 1], bs[|bs| - 1];
    ApplyAddressesLast(code, bs);
    PlainStaysPlain(last.address);
    if k == |bs| - 1 {
      ReplaceAllLeavesNoMatch(ApplyAddresses(code, front), last.importFile, WithHexPrefix(last.address));
    } else {
      assert front[k] == bs[k];
      assert PlainBindings(front) by {
        forall i | 0 <= i < |front| ensures PlainAddress(front[i].address) {
          assert front[i] == bs[i];
        }
      }
      ApplyNoMatchRemains(code, front, k);
      ReplaceAllKeepsAbsence(ApplyAddresses(code, front), last.importFile, WithHexPrefix(last.address),
                             bs[k].importFile);
    }
  }

  /**
    * An entry whose name has no placeholder left when its turn comes changes
    * nothing: dropping it from the map gives the same text.
    */
  lemma UnmatchedEntryIsNoOp(code: string, xs: seq<Binding>, b: Binding, ys: seq<Binding>)
    requires ValidBindings(xs) && ValidBinding(b) && ValidBindings(ys)
    requires !HasMatch(ApplyAddresses(code, xs), b.importFile)
    ensures ValidBindings(xs + [b] + ys) && ValidBindings(xs + ys)
    ensures ApplyAddresses(code, xs + [b] + ys) == ApplyAddresses(code, xs + ys)
  {
    var mid := ApplyAddresses(code, xs);
    ApplyAddressesAppend(code, xs, [b]);
    ApplyAddressesAppend(code, xs + [b], ys);
    ApplyAddressesAppend(code, xs, ys);
    assert ApplyAddresses(mid, [b]) == Substitute(ApplyAddresses(mid, []), b);
  }

  /**
    * An unrecognized name is still substituted, whatever its address: the
    * warning is the only difference the recognized-names check makes.  With
    * a plain address no placeholder of the name is left afterwards.
    */
  lemma UnrecognizedStillReplaced(code: string, b: Binding)
    requires ValidBinding(b)
    requires b.importFile !in RecognizedAddresses
    ensures Misspelled([b]) == [b.importFile]
    ensures ApplyAddresses(code, [b]) == Substitute(code, b)
    ensures PlainAddress(b.address) ==> !HasMatch(ApplyAddresses(code, [b]), b.importFile)
  {
    ApplyAddressesLast(code, [b]);
    assert [b][..0] == [];
    if PlainAddress(b.address) {
      ApplyNoMatchRemains(code, [b], 0);
    }
  }

  /**
    * `NFTStorefront` leaves no fungible-token or non-fungible-token
    * placeholder, in either iteration order.
    */
  lemma StorefrontReplacesBoth(code: string, ftAddress: string, nftAddress: string, ftFirst: bool)
    requires StorefrontAddresses(ftAddress, nftAddress)
    requires PlainAddress(ftAddress) && PlainAddress(nftAddress)
    ensures ValidBindings(StorefrontBindings(ftAddress, nftAddress, ftFirst))
    ensures var out := ApplyAddresses(code, StorefrontBindings(ftAddress, nftAddress, ftFirst));
      !HasMatch(out, "FungibleToken") && !HasMatch(out, "NonFungibleToken")
  {
    var bs := StorefrontBindings(ftAddress, nftAddress, ftFirst);
    StorefrontBindingsValid(ftAddress, nftAddress, ftFirst);
    ApplyNoMatchRemains(code, bs, 0);
    ApplyNoMatchRemains(code, bs, 1);
  }

  /**
    * `NFTStorefront` creates no placeholder of any other name: one the text
    * does not hold, it still does not hold afterwards.
    */
  lemma StorefrontKeepsOthersAbsent(code: string, ftAddress: string, nftAddress: string, ftFirst: bool, other: string)
    requires StorefrontAddresses(ftAddress, nftAddress)
    requires PlainAddress(ftAddress) && PlainAddress(nftAddress)
    requires IsIdentifier(other) && !HasMatch(code, other)
    ensures ValidBindings(StorefrontBindings(ftAddress, nftAddress, ftFirst))
    ensures !HasMatch(ApplyAddresses(code, StorefrontBindings(ftAddress, nftAddress, ftFirst)), other)
  {
    StorefrontBindingsValid(ftAddress, nftAddress, ftFirst);
    ApplyPreservesAbsence(code, StorefrontBindings(ftAddress, nftAddress, ftFirst), other);
  }

  /** A text with neither placeholder passes through `NFTStorefront` unchanged. */
  lemma StorefrontIdentity(code: string, ftAddress: string, nftAddress: string, ftFirst: bool)
    requires StorefrontAddresses(ftAddress, nftAddress)
    requires !HasMatch(code, "FungibleToken") && !HasMatch(code, "NonFungibleToken")
    ensures ValidBindings(StorefrontBindings(ftAddress, nftAddress, ftFirst))
    ensures ApplyAddresses(code, StorefrontBindings(ftAddress, nftAddress, ftFirst)) == code
  {
    StorefrontBindingsValid(ftAddress, nftAddress, ftFirst);
  }
}
