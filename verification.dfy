/**
 * The pure address and message utilities: the challenge message, the user id
 * derived from an address, the address format check and the display form.
 */
module Verification {
  import opened Wrappers
  import opened JsStrings

  const Header := "Verify your identity with Minikit Verify"
  const AddressLabel := "\nAddress: "
  const TimestampLabel := "\nTimestamp: "

  /**
   * The challenge text for `address`, stamped with `timestamp` (epoch milliseconds);
   * empty when the address is missing or empty.
   */
  function GenerateVerificationMessage(address: Option<string>, timestamp: nat): (r: string)
    ensures r == "" <==> IsFalsy(address)
    ensures !IsFalsy(address) ==> |r| > |Header| && r[..|Header|] == Header
  {
    if IsFalsy(address) then ""
    else Header + AddressLabel + address.value + TimestampLabel + NatToString(timestamp)
  }

  /** `part` occurs in `s` starting at index `i`. */
  predicate OccursAt(s: string, part: string, i: nat)
  {
    i + |part| <= |s| && s[i..i + |part|] == part
  }

  predicate Contains(s: string, part: string)
  {
    exists i: nat | i <= |s| :: OccursAt(s, part, i)
  }

  lemma OccursInMiddle(before: string, part: string, after: string)
    ensures OccursAt(before + part + after, part, |before|)
  {
    assert (before + part + after)[|before|..|before| + |part|] == part;
  }

  /** A message for a present address mentions the header, the address and the timestamp label. */
  lemma MessageMentions(address: string, timestamp: nat)
    requires address != ""
    ensures Contains(GenerateVerificationMessage(Some(address), timestamp), Header)
    ensures Contains(GenerateVerificationMessage(Some(address), timestamp), "Address: " + address)
    ensures Contains(GenerateVerificationMessage(Some(address), timestamp), "Timestamp:")
  {
    var m := GenerateVerificationMessage(Some(address), timestamp);
    var d := NatToString(timestamp);
    assert AddressLabel == "\n" + "Address: " && TimestampLabel == "\n" + "Timestamp:" + " ";
    assert m == [] + Header + (AddressLabel + address + TimestampLabel + d);
    OccursInMiddle([], Header, AddressLabel + address + TimestampLabel + d);
    assert m == (Header + "\n") + ("Address: " + address) + (TimestampLabel + d);
    OccursInMiddle(Header + "\n", "Address: " + address, TimestampLabel + d);
    assert m == (Header + AddressLabel + address + "\n") + "Timestamp:" + (" " + d);
    OccursInMiddle(Header + AddressLabel + address + "\n", "Timestamp:", " " + d);
  }

  /**
   * Reads the address and timestamp back out of a challenge message: the
   * timestamp is the trailing run of digits, preceded by the timestamp label,
   * and the address is whatever lies between the address label and that label.
   */
  function ParseVerificationMessage(m: string): (r: Option<(string, nat)>)
    ensures r.Some? ==> r.value.0 != ""
  {
    var p := Header + AddressLabel;
    var k := TrailingDigits(m);
    var rest := m[..|m| - k];
    if 0 < k && |p| + |TimestampLabel| < |rest|
       && rest[..|p|] == p
       && rest[|rest| - |TimestampLabel|..] == TimestampLabel
    then Some((rest[|p|..|rest| - |TimestampLabel|], ParseDigits(m[|m| - k..])))
    else None
  }

  /** Round trip: the message determines the address and timestamp it was built from. */
  lemma ParseGeneratedMessage(address: string, timestamp: nat)
    requires address != ""
    ensures ParseVerificationMessage(GenerateVerificationMessage(Some(address), timestamp)) == Some((address, timestamp))
  {
    var p := Header + AddressLabel;
    var x := p + address + TimestampLabel;
    var d := NatToString(timestamp);
    var m := GenerateVerificationMessage(Some(address), timestamp);
    assert m == x + d;
    assert x[|x| - 1] == ' ';
    TrailingDigitsAfterNonDigit(x, d);
    assert m[..|m| - |d|] == x;
    assert m[|m| - |d|..] == d;
    assert x[..|p|] == p;
    assert x[|x| - |TimestampLabel|..] == TimestampLabel;
    assert x[|p|..|x| - |TimestampLabel|] == address;
    ParseNatToString(timestamp);
  }

  /** Two challenges are equal only if they were made for the same address at the same time. */
  lemma MessageInjective(a1: string, t1: nat, a2: string, t2: nat)
    requires a1 != "" && a2 != ""
    requires GenerateVerificationMessage(Some(a1), t1) == GenerateVerificationMessage(Some(a2), t2)
    ensures a1 == a2 && t1 == t2
  {
    ParseGeneratedMessage(a1, t1);
    ParseGeneratedMessage(a2, t2);
  }

  /** `"user_"` followed by characters 2 to 9 of the lowercased address, clamped to its length. */
  function GenerateUserId(address: string): (r: string)
    ensures |r| == 5 + Max(0, Min(10, |address|) - 2)
    ensures r[..5] == "user_"
  {
    "user_" + Substring(ToLowerCase(address), 2, 10)
  }

  /** The id is the prefix followed by the lowercased slice `[min(2,n), min(10,n))`. */
  lemma UserIdIsLowercasedSlice(address: string)
    ensures GenerateUserId(address) == "user_" + ToLowerCase(address)[Min(2, |address|)..Min(10, |address|)]
    ensures 5 <= |GenerateUserId(address)| <= 13
    ensures |address| >= 10 ==> |GenerateUserId(address)| == 13
  {
    SubstringIsSlice(ToLowerCase(address), 2, 10);
  }

  /** The id only sees positions 2..9, case-insensitively: distinct addresses can share one. */
  lemma UserIdDependsOnlyOnPositions2To9(a: string, b: string)
    requires |a| >= 10 && |b| >= 10
    requires forall i :: 2 <= i < 10 ==> LowerChar(a[i]) == LowerChar(b[i])
    ensures GenerateUserId(a) == GenerateUserId(b)
  {
    UserIdIsLowercasedSlice(a);
    UserIdIsLowercasedSlice(b);
    var sa, sb := ToLowerCase(a)[2..10], ToLowerCase(b)[2..10];
    forall i | 0 <= i < 8 ensures sa[i] == sb[i] {
      assert sa[i] == LowerChar(a[i + 2]);
    }
  }

  /** The id ignores the case of the address. */
  lemma UserIdCaseInsensitive(a: string, b: string)
    requires ToLowerCase(a) == ToLowerCase(b)
    ensures GenerateUserId(a) == GenerateUserId(b)
    ensures GenerateUserId(ToUpperCase(a)) == GenerateUserId(a)
  {
    LowerOfUpper(a);
  }

  predicate IsHexDigit(c: char)
  {
    '0' <= c <= '9' || 'a' <= c <= 'f' || 'A' <= c <= 'F'
  }

  predicate IsLowerHexDigit(c: char)
  {
    '0' <= c <= '9' || 'a' <= c <= 'f'
  }

  /** The pattern `^0x[a-fA-F0-9]{40}$`: the prefix `0x` and forty hex digits of either case. */
  predicate IsValidAddress(address: string)
    ensures IsValidAddress(address) ==> |address| == 42 && address[..2] == "0x"
  {
    |address| == 42 && address[0] == '0' && address[1] == 'x'
    && forall i :: 2 <= i < 42 ==> IsHexDigit(address[i])
  }

  /** `[a-fA-F0-9]{n}$`, as a regular-expression engine consumes it: `n` hex digits, one at a time, then the end of input. */
  predicate MatchHexRun(s: string, n: nat)
  {
    if n == 0 then s == [] else s != [] && IsHexDigit(s[0]) && MatchHexRun(s[1..], n - 1)
  }

  lemma {:induction false} MatchHexRunIff(s: string, n: nat)
    ensures MatchHexRun(s, n) <==> |s| == n && forall i :: 0 <= i < |s| ==> IsHexDigit(s[i])
    decreases n
  {
    if n > 0 && s != [] {
      MatchHexRunIff(s[1..], n - 1);
      if |s| == n && (forall i :: 0 <= i < |s| ==> IsHexDigit(s[i])) {
        assert forall i :: 0 <= i < |s[1..]| ==> s[1..][i] == s[i + 1];
      }
    }
  }

  /** The address check agrees with matching the pattern left to right: `0`, `x`, forty hex digits, end. */
  lemma IsValidAddressMatchesPattern(address: string)
    ensures IsValidAddress(address) <==>
      |address| >= 2 && address[..2] == "0x" && MatchHexRun(address[2..], 40)
  {
    if |address| >= 2 {
      MatchHexRunIff(address[2..], 40);
      assert forall i :: 2 <= i < |address| ==> address[2..][i - 2] == address[i];
    }
  }

  lemma HexDigitCaseInsensitive(c: char, d: char)
    requires LowerChar(c) == LowerChar(d)
    ensures IsHexDigit(c) == IsHexDigit(d)
  {
  }

  /** Changing the case of the digits never changes validity. */
  lemma ValidityIgnoresDigitCase(a: string, b: string)
    requires |a| == |b| && |a| >= 2 && a[..2] == b[..2]
    requires forall i :: 2 <= i < |a| ==> LowerChar(a[i]) == LowerChar(b[i])
    ensures IsValidAddress(a) == IsValidAddress(b)
  {
    forall i | 2 <= i < |a| ensures IsHexDigit(a[i]) == IsHexDigit(b[i]) {
      HexDigitCaseInsensitive(a[i], b[i]);
    }
  }

  /** The prefix is case-sensitive: `0X...` is rejected. */
  lemma UppercasePrefixRejected(address: string)
    requires |address| >= 2 && address[1] == 'X'
    ensures !IsValidAddress(address)
  {
  }

  /** A valid address yields `"user_"` and exactly eight lowercase hex digits. */
  lemma UserIdOfValidAddress(address: string)
    requires IsValidAddress(address)
    ensures |GenerateUserId(address)| == 13
    ensures forall i :: 5 <= i < 13 ==> IsLowerHexDigit(GenerateUserId(address)[i])
  {
    UserIdIsLowercasedSlice(address);
    var r := GenerateUserId(address);
    forall i | 5 <= i < 13 ensures IsLowerHexDigit(r[i]) {
      assert r[i] == LowerChar(address[i - 3]);
    }
  }

  /** The display form: first six characters, an ellipsis, last four; empty for a missing address. */
  function FormatAddress(address: Option<string>): (r: string)
    ensures IsFalsy(address) ==> r == ""
    ensures !IsFalsy(address) ==> |r| == Min(6, |address.value|) + 3 + Min(4, |address.value|)
  {
    if IsFalsy(address) then ""
    else
      var s := address.value;
      Substring(s, 0, 6) + "..." + SubstringFrom(s, |s| - 4)
  }

  /** The display form is the head slice, `"..."` and the tail slice; 13 characters from six up. */
  lemma FormatAddressShape(s: string)
    requires s != ""
    ensures FormatAddress(Some(s)) == s[..Min(6, |s|)] + "..." + s[Max(0, |s| - 4)..]
    ensures |s| >= 6 ==> |FormatAddress(Some(s))| == 13
  {
    SubstringIsSlice(s, 0, 6);
  }

  const SampleAddress := "0x1234567890abcdef1234567890abcdef12345678"

  lemma SampleAddressValid()
    ensures IsValidAddress(SampleAddress)
  {
  }

  /** A slice of a literal, read off character by character. */
  lemma SliceIs(s: string, lo: nat, hi: nat, r: string)
    requires lo <= hi <= |s| && |r| == hi - lo
    requires forall i :: lo <= i < hi ==> s[i] == r[i - lo]
    ensures s[lo..hi] == r
  {
  }

  /** The id of any address whose characters 2 to 9 lowercase to `id8`. */
  lemma UserIdFromLowercasedHead(a: string, id8: string)
    requires |a| >= 10 && |id8| == 8
    requires forall i :: 2 <= i < 10 ==> LowerChar(a[i]) == id8[i - 2]
    ensures GenerateUserId(a) == "user_" + id8
  {
    UserIdIsLowercasedSlice(a);
    SliceIs(ToLowerCase(a), 2, 10, id8);
  }

  /** The id of an address is the id of its first ten characters. */
  lemma UserIdOfHead(a: string)
    requires |a| >= 10
    ensures GenerateUserId(a) == GenerateUserId(a[..10])
  {
    UserIdCollision(a, a[..10]);
  }

  lemma SampleHead()
    ensures SampleAddress[..10] == "0x12345678"
  {
    SliceIs(SampleAddress, 0, 10, "0x12345678");
  }

  lemma SampleHeadUserId()
    ensures GenerateUserId("0x12345678") == "user_12345678"
  {
    UserIdFromLowercasedHead("0x12345678", "12345678");
  }

  /** The id the unit tests pin for the sample address. */
  lemma SampleUserId()
    ensures GenerateUserId(SampleAddress) == "user_12345678"
  {
    SampleHead();
    UserIdOfHead(SampleAddress);
    SampleHeadUserId();
  }

  /** The display form of any address with the given first six and last four characters. */
  lemma FormatFromEnds(s: string, head: string, tail: string)
    requires |s| >= 6 && s[..6] == head && s[|s| - 4..] == tail
    ensures FormatAddress(Some(s)) == head + "..." + tail
  {
    FormatAddressShape(s);
  }

  lemma SampleEnds()
    ensures SampleAddress[..6] == "0x1234" && SampleAddress[|SampleAddress| - 4..] == "5678"
  {
    SliceIs(SampleAddress, 0, 6, "0x1234");
    SliceIs(SampleAddress, |SampleAddress| - 4, |SampleAddress|, "5678");
  }

  /** The display form the unit tests pin, and the empty results for a missing address. */
  lemma SampleFormat()
    ensures FormatAddress(Some(SampleAddress)) == "0x1234...5678"
    ensures GenerateVerificationMessage(None, 0) == "" && FormatAddress(None) == ""
  {
    SampleEnds();
    FormatFromEnds(SampleAddress, "0x1234", "5678");
  }

  /** Too short, non-hex and unprefixed inputs are rejected. */
  lemma SampleInvalidAddresses()
    ensures !IsValidAddress("0x123")
    ensures !IsValidAddress("0xGGGG567890abcdef1234567890abcdef12345678")
    ensures !IsValidAddress("1234567890abcdef1234567890abcdef12345678")
  {
    var g := "0xGGGG567890abcdef1234567890abcdef12345678";
    assert !IsHexDigit(g[2]);
  }

  /** A mixed-case address. */
  const ScenarioAddress := "0xABCDEF0000000000000000000000000000001234"

  lemma ScenarioHead()
    ensures ScenarioAddress[..10] == "0xABCDEF00"
  {
    SliceIs(ScenarioAddress, 0, 10, "0xABCDEF00");
  }

  lemma ScenarioHeadUserId()
    ensures GenerateUserId("0xABCDEF00") == "user_abcdef00"
  {
    UserIdFromLowercasedHead("0xABCDEF00", "abcdef00");
  }

  /** Its id is taken from the lowercased characters. */
  lemma ScenarioUserId()
    ensures GenerateUserId(ScenarioAddress) == "user_abcdef00"
  {
    ScenarioHead();
    UserIdOfHead(ScenarioAddress);
    ScenarioHeadUserId();
  }

  const CollidingAddressA := "0x1234567800000000000000000000000000000000"
  const CollidingAddressB := "0x12345678ffffffffffffffffffffffffffffffff"

  lemma CollidingAddressAValid()
    ensures IsValidAddress(CollidingAddressA)
  {
  }

  lemma CollidingAddressBValid()
    ensures IsValidAddress(CollidingAddressB)
  {
  }

  lemma CollidingAddressesValid()
    ensures IsValidAddress(CollidingAddressA) && IsValidAddress(CollidingAddressB)
  {
    CollidingAddressAValid();
    CollidingAddressBValid();
  }

  /** Two distinct addresses with the same first ten characters, so (by UserIdCollision) one id. */
  lemma CollidingAddressesShareHead()
    ensures CollidingAddressA != CollidingAddressB && CollidingAddressA[..10] == CollidingAddressB[..10]
  {
    assert CollidingAddressA[10] != CollidingAddressB[10];
    SliceIs(CollidingAddressA, 0, 10, "0x12345678");
    SliceIs(CollidingAddressB, 0, 10, "0x12345678");
  }

  /** Addresses that share their first ten characters share an id, however they differ afterwards. */
  lemma UserIdCollision(a: string, b: string)
    requires |a| >= 10 && |b| >= 10 && a[..10] == b[..10]
    ensures GenerateUserId(a) == GenerateUserId(b)
  {
    forall i | 2 <= i < 10 ensures LowerChar(a[i]) == LowerChar(b[i]) {
      assert a[i] == a[..10][i] && b[i] == b[..10][i];
    }
    UserIdDependsOnlyOnPositions2To9(a, b);
  }
}
