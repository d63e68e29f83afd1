/** How leaves travel to the client: as hex strings, from which the client rebuilds the root. */
module LeafExchange {
  import opened Prelude
  import opened MerkleTree

  function HexDigit(d: nat): char
    requires d < 16
  {
    "0123456789abcdef"[d]
  }

  function DigitValue(ch: char): Option<nat> {
    if '0' <= ch <= '9' then Some((ch - '0') as nat)
    else if 'a' <= ch <= 'f' then Some((ch - 'a') as nat + 10)
    else if 'A' <= ch <= 'F' then Some((ch - 'A') as nat + 10)
    else None
  }

  /** Hex without a prefix and without leading zeros, as the server prints a leaf. */
  function BigintToHex(n: nat): string {
    if n < 16 then [HexDigit(n)] else BigintToHex(n / 16) + [HexDigit(n % 16)]
  }

  /** The value of a non-empty string of hex digits, as the client parses it; anything else throws. */
  function ParseHex(s: string): Option<nat> {
    if s == [] then None
    else
      match (if |s| == 1 then Some(0) else ParseHex(s[..|s| - 1]), DigitValue(s[|s| - 1]))
      case (Some(high), Some(low)) => Some(16 * high + low)
      case _ => None
  }

  lemma DigitRoundTrip(d: nat)
    requires d < 16
    ensures DigitValue(HexDigit(d)) == Some(d)
  {
  }

  lemma ParseOneMoreDigit(s: string, n: nat, d: nat)
    requires s != [] && ParseHex(s) == Some(n) && d < 16
    ensures ParseHex(s + [HexDigit(d)]) == Some(16 * n + d)
  {
    hide HexDigit, DigitValue;
    DigitRoundTrip(d);
    assert (s + [HexDigit(d)])[..|s|] == s;
  }

  lemma {:induction false} HexRoundTrip(n: nat)
    ensures BigintToHex(n) != []
    ensures ParseHex(BigintToHex(n)) == Some(n)
  {
    hide HexDigit, DigitValue;
    if n < 16 {
      DigitRoundTrip(n);
    } else {
      HexRoundTrip(n / 16);
      ParseOneMoreDigit(BigintToHex(n / 16), n / 16, n % 16);
    }
  }

  /** Printed hex is lower case, and starts with a zero for zero only. */
  lemma {:induction false} PrintedHexIsCanonical(n: nat)
    ensures BigintToHex(n) != [] && (BigintToHex(n)[0] == '0' <==> n == 0)
    ensures forall ch | ch in BigintToHex(n) :: '0' <= ch <= '9' || 'a' <= ch <= 'f'
  {
    if n >= 16 { PrintedHexIsCanonical(n / 16); }
  }

  predicate IsHexDigit(ch: char) {
    '0' <= ch <= '9' || 'a' <= ch <= 'f' || 'A' <= ch <= 'F'
  }

  /** A string is parsed exactly when it is not empty and all of it are hex digits, of either case. */
  lemma {:induction false} ParsesExactlyHex(s: string)
    ensures ParseHex(s).Some? <==> s != [] && forall ch | ch in s :: IsHexDigit(ch)
    decreases |s|
  {
    if s != [] {
      var rest, last := s[..|s| - 1], s[|s| - 1];
      assert s == rest + [last];
      assert DigitValue(last).Some? <==> IsHexDigit(last);
      assert (forall ch | ch in s :: IsHexDigit(ch))
             <==> (forall ch | ch in rest :: IsHexDigit(ch)) && IsHexDigit(last);
      if |s| > 1 { ParsesExactlyHex(rest); }
    }
  }

  /** The leaf list as the server sends it. */
  function PrintLeaves(hashes: seq<nat>): (printed: seq<string>)
    ensures |printed| == |hashes|
  {
    seq(|hashes|, i requires 0 <= i < |hashes| => BigintToHex(hashes[i]))
  }

  /** The members the client parses out of it; one malformed string throws. */
  function ParseLeaves(printed: seq<string>): Option<seq<nat>> {
    if printed == [] then Some([])
    else
      match (ParseHex(printed[0]), ParseLeaves(printed[1..]))
      case (Some(first), Some(rest)) => Some([first] + rest)
      case _ => None
  }

  lemma {:induction false} LeavesRoundTrip(hashes: seq<nat>)
    ensures ParseLeaves(PrintLeaves(hashes)) == Some(hashes)
    decreases |hashes|
  {
    if hashes != [] {
      HexRoundTrip(hashes[0]);
      LeavesRoundTrip(hashes[1..]);
      assert PrintLeaves(hashes)[1..] == PrintLeaves(hashes[1..]);
      assert [hashes[0]] + hashes[1..] == hashes;
    }
  }

  /** The root of the group the client builds, with the server's depth and zero value. */
  function SlashedGroupRoot(c: TreeConfig, printed: seq<string>): Option<nat> {
    match ParseLeaves(printed)
    case Some(members) => Some(c.Root(members))
    case None => None
  }

  /** While the stored hashes are right, the client's rebuilt root is the stored root. */
  lemma ClientRebuildsStoredRoot(c: TreeConfig, t: Nodes, slots: seq<Slot>)
    requires c.Shape(t, |slots|) && HoldsSlots(t, slots) && c.HashOk(t) && slots != []
    ensures Key(c.levels, 0) in t
    ensures SlashedGroupRoot(c, PrintLeaves(Hashes(slots))) == Some(t[Key(c.levels, 0)].hash)
  {
    c.RootIsStored(t, |slots|);
    c.LeafHashesOfSlots(t, slots);
    c.StoredHashIsSubRoot(t, |slots|, c.levels, 0);
    LeavesRoundTrip(Hashes(slots));
  }
}
