/**
  * One import line run through `NFTStorefront`: the whole quoted path, both
  * quotes included, becomes the bare hex address.
  */
module ImportExample {
  import opened HexPrefix
  import opened Placeholder
  import opened ReplaceFacts
  import opened Contracts

  /** The text of the line before its quoted path. */
  const FtImportHead: string := "import FungibleToken from "

  /**
    * A fungible-token import as a Cadence source writes it, with a quoted
    * relative path: `import FungibleToken from "./FungibleToken.cdc"`.
    */
  const FtImport: string := FtImportHead + "\"" + "." + "/" + "FungibleToken" + ".cdc\""

  /** The same line with the path replaced by the address: `import FungibleToken from 0x1`. */
  const FtImportResolved: string := FtImportHead + "0x1"

  /** Replacing the fungible-token placeholder drops the quotes along with the path. */
  lemma FtImportReplaced()
    ensures ReplaceAll(FtImport, "FungibleToken", "0x1") == FtImportResolved
  {
    StorefrontNamesAreIdentifiers();
    ImportPathReplaced(FtImportHead, ".", "FungibleToken", "0x1");
  }

  /** The head of the line holds no double quote. */
  lemma FtImportHeadUnquoted()
    ensures '"' !in FtImportHead
  {
  }

  /** The line holds no non-fungible-token placeholder: its one path is too short for that closing. */
  lemma FtImportHasNoNftMatch()
    ensures !HasMatch(FtImport, "NonFungibleToken")
  {
    FtImportHeadUnquoted();
    forall k | 0 <= k < |FtImportHead|
      ensures FtImport[k] != '"'
    {
      assert FtImport[k] == FtImportHead[k];
    }
    NoRoomForMatch(FtImport, "NonFungibleToken");
  }

  /** The resolved line holds no double quote, so no placeholder. */
  lemma FtImportResolvedHasNoNftMatch()
    ensures !HasMatch(FtImportResolved, "NonFungibleToken")
  {
    FtImportHeadUnquoted();
    assert '"' !in "0x1";
    NoRoomForMatch(FtImportResolved, "NonFungibleToken");
  }

  /** Processing a two-entry map is two substitutions in a row. */
  lemma ApplyTwo(code: string, a: Binding, b: Binding)
    requires ValidBinding(a) && ValidBinding(b)
    ensures ValidBindings([a, b])
    ensures ApplyAddresses(code, [a, b]) == Substitute(Substitute(code, a), b)
  {
    assert [a, b][..1] == [a] && [a][..0] == [];
    assert ApplyAddresses(code, [a]) == Substitute(code, a);
  }

  /**
    * `NFTStorefront("0x1", "0x2")` on the line yields `import FungibleToken
    * from 0x1`, without quotes around the address, in either iteration order.
    */
  lemma StorefrontOnFtImport(ftFirst: bool)
    ensures StorefrontAddresses("0x1", "0x2")
    ensures ValidBindings(StorefrontBindings("0x1", "0x2", ftFirst))
    ensures ApplyAddresses(FtImport, StorefrontBindings("0x1", "0x2", ftFirst)) == FtImportResolved
  {
    StorefrontNamesAreIdentifiers();
    var ft := Binding("FungibleToken", "0x1");
    var nft := Binding("NonFungibleToken", "0x2");
    FtImportReplaced();
    assert WithHexPrefix("0x1") == "0x1" && WithHexPrefix("0x2") == "0x2";
    assert Substitute(FtImport, ft) == FtImportResolved;
    if ftFirst {
      ApplyTwo(FtImport, ft, nft);
      FtImportResolvedHasNoNftMatch();
      assert Substitute(FtImportResolved, nft) == FtImportResolved;
    } else {
      ApplyTwo(FtImport, nft, ft);
      FtImportHasNoNftMatch();
      assert Substitute(FtImport, nft) == FtImport;
    }
  }
}
