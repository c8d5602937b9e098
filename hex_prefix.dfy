/**
  * `withHexPrefix` from lib/go/contracts/contracts.go: a non-empty address
  * written into an import placeholder carries the "0x" prefix exactly once;
  * an empty address stays empty, and one that already starts with "0x" is
  * left as it is.
  */
module HexPrefix {

  /** The string starts with "0x". */
  predicate HasHexPrefix(s: string) {
    |s| >= 2 && s[..2] == "0x"
  }

  /**
    * The empty address stays empty; an address already starting with "0x" is
    * returned as it is; any other address gets "0x" in front.  The Go code
    * compares the slice `address[0:2]`, which panics on a one-character
    * address: that input is excluded by the precondition.
    */
  function WithHexPrefix(address: string): (r: string)
    requires |address| != 1
    ensures r == "" <==> address == ""
    ensures r != "" ==> HasHexPrefix(r)
    ensures r == address <==> (address == "" || HasHexPrefix(address))
    ensures r != address ==> r == "0x" + address
  {
    if address == "" then ""
    else if address[0..2] == "0x" then address
    else "0x" + address
  }

  /** Adding the prefix a second time changes nothing. */
  lemma WithHexPrefixIdempotent(address: string)
    requires |address| != 1
    ensures |WithHexPrefix(address)| != 1
    ensures WithHexPrefix(WithHexPrefix(address)) == WithHexPrefix(address)
  {
  }

  /** The prefix adds at most the two characters "0x" and keeps the address as the tail. */
  lemma WithHexPrefixKeepsAddress(address: string)
    requires |address| != 1
    ensures var r := WithHexPrefix(address);
      |address| <= |r| <= |address| + 2 && r[|r| - |address|..] == address
  {
  }

  /** A character the address lacks is absent from the prefixed address too, unless it is '0' or 'x'. */
  lemma WithHexPrefixChars(address: string, c: char)
    requires |address| != 1
    requires c != '0' && c != 'x'
    ensures c in WithHexPrefix(address) <==> c in address
  {
    var r := WithHexPrefix(address);
    if r != address {
      assert r == "0x" + address;
      assert c in r ==> c in address by {
        if c in r {
          var k :| 0 <= k < |r| && r[k] == c;
          assert k >= 2;
          assert address[k - 2] == c;
        }
      }
      assert c in address ==> c in r by {
        if c in address {
          var k :| 0 <= k < |address| && address[k] == c;
          assert r[k + 2] == c;
        }
      }
    }
  }
}
