/**
 * The text helpers of the wallet panel: the shortened address and the
 * network name shown for a chain id.
 */
module WalletConnection {
  import opened Wrappers
  import opened Decimal

  function Min(a: int, b: int): int {
    if a <= b then a else b
  }

  /**
   * `formatAddress`: "" for a missing or empty address, otherwise
   * `slice(0, 6)`, then "...", then `slice(-4)` (the last four characters,
   * or the whole address when it is shorter).
   */
  function FormatAddress(address: Option<string>): (r: string)
    ensures address.None? || address == Some("") ==> r == ""
    ensures address.Some? && address.value != "" ==>
      var a := address.value;
      && |r| == Min(6, |a|) + 3 + Min(4, |a|)
      && r[..Min(6, |a|)] == a[..Min(6, |a|)]
      && r[Min(6, |a|)..Min(6, |a|) + 3] == "..."
      && r[|r| - Min(4, |a|)..] == a[|a| - Min(4, |a|)..]
  {
    if address.None? || address.value == "" then ""
    else
      var a := address.value;
      var tailStart := if |a| >= 4 then |a| - 4 else 0;
      a[..Min(6, |a|)] + "..." + a[tailStart..]
  }

  /**
   * A full address (ten characters or more, such as a 42-character Ethereum
   * address) becomes exactly 13 characters: its first six, "...", and its
   * last four.
   */
  lemma FormatLongAddress(a: string)
    requires |a| >= 10
    ensures |FormatAddress(Some(a))| == 13
    ensures FormatAddress(Some(a)) == a[..6] + "..." + a[|a| - 4..]
  {
    var r := FormatAddress(Some(a));
    assert r[..6] == a[..6] && r[6..9] == "..." && r[9..] == a[|a| - 4..];
    assert r == r[..6] + r[6..9] + r[9..];
  }

  /** A short non-empty address is never shown unchanged: the result is longer than it. */
  lemma ShortAddressChanged(a: string)
    requires 0 < |a| < 10
    ensures |FormatAddress(Some(a))| > |a|
    ensures FormatAddress(Some(a)) != a
  {
  }

  /** The chain ids `getNetworkName` knows, with their names. */
  const Networks: map<int, string> := map[
    1 := "Ethereum Mainnet",
    5 := "Goerli Testnet",
    11155111 := "Sepolia Testnet",
    137 := "Polygon Mainnet",
    80001 := "Polygon Mumbai",
    56 := "BSC Mainnet",
    97 := "BSC Testnet"]

  const FallbackPrefix := "Chain ID: "

  /** `getNetworkName`: the table's name for a known chain id, otherwise "Chain ID: " and the id. */
  function NetworkName(chainId: int): (name: string)
    ensures chainId in Networks ==> name == Networks[chainId]
    ensures chainId !in Networks <==> |name| > |FallbackPrefix| && name[..|FallbackPrefix|] == FallbackPrefix
  {
    if chainId in Networks then
      assert chainId in {1, 5, 11155111, 137, 80001, 56, 97};
      assert Networks[chainId][0] != 'C';
      Networks[chainId]
    else FallbackPrefix + IntToString(chainId)
  }

  /**
   * The id after the fallback prefix reads back as the chain id, and is
   * written in canonical form: an optional minus sign, then digits without a
   * leading zero.
   */
  lemma FallbackReadsBack(chainId: int)
    requires chainId !in Networks
    ensures var digits := NetworkName(chainId)[|FallbackPrefix|..];
      && (AllDigits(digits) || (digits[0] == '-' && AllDigits(digits[1..])))
      && ParseInt(digits) == chainId
      && var magnitude := if digits[0] == '-' then digits[1..] else digits;
         |magnitude| >= 1 && (|magnitude| > 1 ==> magnitude[0] != '0')
  {
    var digits := NetworkName(chainId)[|FallbackPrefix|..];
    assert digits == IntToString(chainId);
    ParseIntToString(chainId);
    if chainId < 0 {
      assert digits[1..] == NatToString(-chainId);
    } else {
      assert digits == NatToString(chainId);
    }
  }

  /** Different chain ids get different names, so the name identifies the network. */
  lemma NetworkNameInjective(a: int, b: int)
    requires NetworkName(a) == NetworkName(b)
    ensures a == b
  {
    if a !in Networks && b !in Networks {
      var n := NetworkName(a);
      assert n[|FallbackPrefix|..] == IntToString(a);
      assert n[|FallbackPrefix|..] == IntToString(b);
      IntToStringInjective(a, b);
    }
  }
}
