/**
  Base-128 varints ("Base 128 Varints", Protocol Buffers encoding guide): each byte carries
  seven payload bits, least-significant group first; the high bit (0x80) says that
  another byte follows.  These are the specification functions that the cursor methods
  of module ByteCursor are proved against.
*/
module Base128 {
  import opened BoundedInts
  import opened Wrappers

  /** Groups that contribute to a 32-bit value; later groups are read but ignored. */
  const MAX_GROUPS32: nat := 5

  /** A decoded varint: its value and the number of bytes it occupied. */
  datatype Varint = Varint(value: uint32, size: nat)

  datatype VarintError = Truncated

  predicate Continues(b: uint8) {
    b >= 0x80
  }

  function Pow128(k: nat): (r: nat)
    ensures r >= 1
  {
    if k == 0 then 1 else 0x80 * Pow128(k - 1)
  }

  /** The groups of `v`, least significant first, every byte but the last flagged. */
  function EncodeGroups(v: nat): (r: seq<uint8>)
    ensures |r| >= 1
    decreases v
  {
    if v < 0x80 then [v] else [v % 0x80 + 0x80] + EncodeGroups(v / 0x80)
  }

  /** Every byte of an encoding but the last carries the continuation flag. */
  lemma {:induction false} EncodedGroupsFlags(v: nat)
    ensures !Continues(EncodeGroups(v)[|EncodeGroups(v)| - 1])
    ensures forall i :: 0 <= i < |EncodeGroups(v)| - 1 ==> Continues(EncodeGroups(v)[i])
    decreases v
  {
    if v >= 0x80 {
      EncodedGroupsFlags(v / 0x80);
    }
  }

  lemma {:induction false} GroupsBound(v: nat, k: nat)
    requires 1 <= k && v < Pow128(k)
    ensures |EncodeGroups(v)| <= k
    decreases k
  {
    if v >= 0x80 {
      assert Pow128(k) == 0x80 * Pow128(k - 1);
      assert 1 <= v / 0x80 < Pow128(k - 1);
      GroupsBound(v / 0x80, k - 1);
    }
  }

  /** writeVarint32: the encoding of a 32-bit value takes one to five bytes. */
  function EncodeVarint32(v: uint32): (r: seq<uint8>)
    ensures 1 <= |r| <= MAX_GROUPS32
  {
    assert Pow128(MAX_GROUPS32) == 0x8_0000_0000;
    GroupsBound(v, MAX_GROUPS32);
    EncodeGroups(v)
  }

  /**
    Reads groups from the front of `s` until a byte without the continuation flag.
    Only the first `budget` groups contribute to the value.  None when `s` runs out first.
  */
  function ReadGroups(s: seq<uint8>, budget: nat): (r: Option<(nat, nat)>)
    ensures r.Some? ==> 1 <= r.value.1 <= |s|
    ensures r.Some? && budget == 0 ==> r.value.0 == 0
    decreases |s|
  {
    if |s| == 0 then None
    else
      var group := if budget == 0 then 0 else s[0] % 0x80;
      if !Continues(s[0]) then Some((group, 1))
      else
        match ReadGroups(s[1..], if budget == 0 then 0 else budget - 1)
        case None => None
        case Some((v, n)) => Some((group + 0x80 * v, n + 1))
  }

  /**
    The reading stops at the first byte without the continuation flag, and fails exactly
    when there is none.
  */
  lemma {:induction false} ReadGroupsStops(s: seq<uint8>, budget: nat)
    ensures ReadGroups(s, budget).None? <==> forall i :: 0 <= i < |s| ==> Continues(s[i])
    ensures ReadGroups(s, budget).Some? ==>
      var n := ReadGroups(s, budget).value.1;
      !Continues(s[n - 1]) && forall i :: 0 <= i < n - 1 ==> Continues(s[i])
    decreases |s|
  {
    if |s| > 0 && Continues(s[0]) {
      var b := if budget == 0 then 0 else budget - 1;
      ReadGroupsStops(s[1..], b);
      if ReadGroups(s[1..], b).None? {
        forall i | 0 <= i < |s| ensures Continues(s[i]) {
          if i > 0 { assert s[i] == s[1..][i - 1]; }
        }
      } else {
        var n := ReadGroups(s[1..], b).value.1;
        assert s[1..][n - 1] == s[n];
        forall i | 0 <= i < n ensures Continues(s[i]) {
          if i > 0 { assert s[i] == s[1..][i - 1]; }
        }
      }
    }
  }

  /**
    readVarint32: the varint at the front of `s`, its value reduced to 32 bits.
  */
  function ParseVarint32(s: seq<uint8>): (r: Result<Varint, VarintError>)
    ensures r.Ok? ==> 1 <= r.value.size <= |s|
  {
    match ReadGroups(s, MAX_GROUPS32)
    case None => Err(Truncated)
    case Some((v, n)) => Ok(Varint(v % TWO_TO_THE_32, n))
  }

  /** readVarint32 fails exactly when every byte of `s` carries the continuation flag. */
  lemma ParseVarint32Fails(s: seq<uint8>)
    ensures ParseVarint32(s).Err? <==> forall i :: 0 <= i < |s| ==> Continues(s[i])
  {
    ReadGroupsStops(s, MAX_GROUPS32);
  }

  lemma {:induction false} ReadEncodedGroups(v: nat, rest: seq<uint8>, budget: nat)
    requires |EncodeGroups(v)| <= budget
    ensures ReadGroups(EncodeGroups(v) + rest, budget) == Some((v, |EncodeGroups(v)|))
    decreases v
  {
    var e := EncodeGroups(v);
    if v >= 0x80 {
      ReadEncodedGroups(v / 0x80, rest, budget - 1);
      assert (e + rest)[1..] == EncodeGroups(v / 0x80) + rest;
    } else {
      assert (e + rest)[0] == v;
    }
  }

  /** Round trip: a varint written in front of any bytes reads back as the same value. */
  lemma ParseEncodedVarint32(v: uint32, rest: seq<uint8>)
    ensures ParseVarint32(EncodeVarint32(v) + rest) == Ok(Varint(v, |EncodeVarint32(v)|))
  {
    assert EncodeVarint32(v) == EncodeGroups(v);
    ReadEncodedGroups(v, rest, MAX_GROUPS32);
  }
}
