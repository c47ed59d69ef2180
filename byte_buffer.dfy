/**
  The cursor buffer that memo.js borrows from the bytebuffer library, reduced to the
  operations it uses: a byte array, a read/write cursor `offset` and a `limit`.  Writes at
  the cursor grow the array when it is full; relative reads advance the cursor only when
  they succeed.
*/
module ByteCursor {
  import opened BoundedInts
  import opened Wrappers
  import opened Base128
  import opened Framing

  /** ByteBuffer.DEFAULT_CAPACITY */
  const DEFAULT_CAPACITY: nat := 16

  /** Groups still allowed to contribute after `groups` have been read. */
  ghost function Budget(groups: nat): nat {
    if groups < MAX_GROUPS32 then MAX_GROUPS32 - groups else 0
  }

  /** The reading of a whole varint, given what was gathered from its first `groups` bytes. */
  ghost function Resume(acc: nat, scale: nat, groups: nat, rest: Option<(nat, nat)>): Option<(nat, nat)> {
    match rest
    case None => None
    case Some((v, n)) => Some((acc + scale * v, groups + n))
  }

  lemma Distribute(acc: nat, scale: nat, g: nat, v: nat)
    ensures acc + scale * (g + 0x80 * v) == (acc + g * scale) + (scale * 0x80) * v
  {
  }

  /**
    The loop state of a varint read over `s`: after `groups` bytes, with `value` gathered
    and `scale` the weight of the next group, finishing the reading gives ReadGroups(s).
  */
  ghost predicate Gathered(s: seq<uint8>, value: nat, scale: nat, groups: nat) {
    groups <= |s| &&
    ReadGroups(s, MAX_GROUPS32) == Resume(value, scale, groups, ReadGroups(s[groups..], Budget(groups)))
  }

  ghost function NextValue(b: uint8, value: nat, scale: nat, groups: nat): nat {
    if groups < MAX_GROUPS32 then value + (b % 0x80) * scale else value
  }

  ghost function NextScale(scale: nat, groups: nat): nat {
    if groups < MAX_GROUPS32 then scale * 0x80 else scale
  }

  /** The first group of a varint that ends with it. */
  lemma ResumeLast(s: seq<uint8>, groups: nat, value: nat, scale: nat)
    requires groups < |s| && !Continues(s[groups])
    ensures Resume(value, scale, groups, ReadGroups(s[groups..], Budget(groups))) ==
            Some((NextValue(s[groups], value, scale, groups), groups + 1))
  {
    var t := s[groups..];
    assert t[0] == s[groups];
    assert ReadGroups(t, Budget(groups)) == Some((if Budget(groups) == 0 then 0 else t[0] % 0x80, 1));
  }

  /** A group with the continuation flag: its weight joins the value, the reading goes on. */
  lemma ResumeContinue(s: seq<uint8>, groups: nat, value: nat, scale: nat)
    requires groups < |s| && Continues(s[groups])
    ensures Resume(value, scale, groups, ReadGroups(s[groups..], Budget(groups))) ==
            Resume(NextValue(s[groups], value, scale, groups), NextScale(scale, groups), groups + 1,
                   ReadGroups(s[groups + 1..], Budget(groups + 1)))
  {
    var t := s[groups..];
    var b := s[groups];
    assert t[0] == b;
    assert t[1..] == s[groups + 1..];
    var rest := ReadGroups(s[groups + 1..], Budget(groups + 1));
    var g := if Budget(groups) == 0 then 0 else b % 0x80;
    assert ReadGroups(t, Budget(groups)) ==
           match rest
           case None => None
           case Some((v, n)) => Some((g + 0x80 * v, n + 1));
    if rest.Some? && groups < MAX_GROUPS32 {
      Distribute(value, scale, b % 0x80, rest.value.0);
    }
  }

  lemma GatheredStart(s: seq<uint8>)
    ensures Gathered(s, 0, 1, 0)
  {
    assert s[0..] == s;
    match ReadGroups(s, MAX_GROUPS32)
    case None =>
    case Some((v, n)) =>
  }

  lemma GatheredContinue(s: seq<uint8>, value: nat, scale: nat, groups: nat)
    requires Gathered(s, value, scale, groups) && groups < |s| && Continues(s[groups])
    ensures Gathered(s, NextValue(s[groups], value, scale, groups), NextScale(scale, groups), groups + 1)
  {
    ResumeContinue(s, groups, value, scale);
  }

  lemma GatheredLast(s: seq<uint8>, value: nat, scale: nat, groups: nat)
    requires Gathered(s, value, scale, groups) && groups < |s| && !Continues(s[groups])
    ensures ParseVarint32(s) ==
            Ok(Varint(NextValue(s[groups], value, scale, groups) % TWO_TO_THE_32, groups + 1))
  {
    ResumeLast(s, groups, value, scale);
  }

  lemma GatheredAll(s: seq<uint8>, value: nat, scale: nat, groups: nat)
    requires Gathered(s, value, scale, groups) && groups == |s|
    ensures ParseVarint32(s) == Err(Truncated)
  {
    assert s[groups..] == [];
  }

  lemma SliceOfSlice(a: seq<uint8>, lo: nat, hi: nat, i: nat, j: nat)
    requires lo <= hi <= |a| && i <= j <= hi - lo
    ensures a[lo..hi][i..j] == a[lo + i..lo + j]
  {
    var x, y := a[lo..hi][i..j], a[lo + i..lo + j];
    assert |x| == |y|;
    forall k | 0 <= k < |x|
      ensures x[k] == y[k]
    {
      assert x[k] == a[lo..hi][i + k] == a[lo + i + k];
    }
  }

  class ByteBuffer {
    var data: array<uint8>
    var offset: nat
    var limit: nat

    ghost predicate Valid()
      reads this
    {
      offset <= data.Length && limit <= data.Length
    }

    /** The bytes from the start of the buffer up to the cursor: what has been written. */
    ghost function Written(): seq<uint8>
      reads this, data
      requires Valid()
    {
      data[..offset]
    }

    /** The bytes from `at` up to the limit (none when `at` is past it). */
    ghost function Window(at: nat): seq<uint8>
      reads this, data
      requires Valid()
    {
      if at <= limit then data[at..limit] else []
    }

    /** The bytes a relative read still sees. */
    ghost function Unread(): seq<uint8>
      reads this, data
      requires Valid()
    {
      Window(offset)
    }

    /** `new ByteBuffer(capacity)`: zeroed, cursor at 0, limit at the capacity. */
    constructor Allocate(capacity: nat)
      ensures Valid() && fresh(data)
      ensures data.Length == capacity && offset == 0 && limit == capacity
      ensures Written() == []
    {
      data := new uint8[capacity](_ => 0);
      offset, limit := 0, capacity;
    }

    /** `ByteBuffer.fromBinary(bytes)`: exactly these bytes, cursor at the start. */
    constructor FromBytes(bytes: seq<uint8>)
      ensures Valid() && fresh(data)
      ensures offset == 0 && limit == |bytes| && Unread() == bytes
    {
      var a := new uint8[|bytes|](i requires 0 <= i < |bytes| => bytes[i]);
      assert a[0..|bytes|] == bytes;
      data := a;
      offset, limit := 0, |bytes|;
    }

    /** `resize(capacity)`: a larger array keeping every byte; never shrinks. */
    method Resize(capacity: nat)
      requires Valid()
      modifies this`data
      ensures Valid() && (data == old(data) || fresh(data))
      ensures data.Length == if capacity > old(data.Length) then capacity else old(data.Length)
      ensures data[..old(data.Length)] == old(data[..])
      ensures Written() == old(Written()) && Unread() == old(Unread())
    {
      if data.Length < capacity {
        var grown := new uint8[capacity](_ => 0);
        var i := 0;
        while i < data.Length
          invariant data == old(data) && grown.Length == capacity > data.Length
          invariant 0 <= i <= data.Length
          invariant forall k :: 0 <= k < i ==> grown[k] == data[k]
        {
          grown[i] := data[i];
          i := i + 1;
        }
        assert grown[..data.Length] == data[..];
        assert grown[..offset] == data[..offset];
        assert offset <= limit ==> grown[offset..limit] == data[offset..limit];
        data := grown;
      }
    }

    /** The growth rule of the writers: at least double, and at least `end` bytes. */
    method EnsureRoom(end: nat)
      requires Valid()
      modifies this`data
      ensures Valid() && (data == old(data) || fresh(data))
      ensures data.Length >= end && data.Length >= old(data.Length)
      ensures Written() == old(Written()) && Unread() == old(Unread())
    {
      if end > data.Length {
        Resize(if 2 * data.Length > end then 2 * data.Length else end);
      }
    }

    /** Relative `writeVarint32(value)`: the varint of `value` is appended at the cursor. */
    method WriteVarint32(value: uint32)
      requires Valid()
      modifies this, data
      ensures Valid() && limit == old(limit) && (data == old(data) || fresh(data))
      ensures Written() == old(Written()) + EncodeVarint32(value)
    {
      EnsureRoom(offset + |EncodeVarint32(value)|);
      var buf := data;
      ghost var prefix := data[..offset];
      var pos := offset;
      var v: nat := value;
      while v >= 0x80
        modifies buf
        invariant offset <= pos <= buf.Length
        invariant pos + |EncodeGroups(v)| <= buf.Length
        invariant buf[..pos] + EncodeGroups(v) == prefix + EncodeVarint32(value)
        decreases v
      {
        ghost var written := buf[..pos];
        buf[pos] := v % 0x80 + 0x80;
        assert buf[..pos + 1] == written + [v % 0x80 + 0x80];
        pos := pos + 1;
        v := v / 0x80;
      }
      ghost var written := buf[..pos];
      buf[pos] := v;
      assert buf[..pos + 1] == written + [v];
      offset := pos + 1;
    }

    /** Relative write of raw bytes at the cursor. */
    method WriteBytes(bytes: seq<uint8>)
      requires Valid()
      modifies this, data
      ensures Valid() && limit == old(limit) && (data == old(data) || fresh(data))
      ensures Written() == old(Written()) + bytes
    {
      EnsureRoom(offset + |bytes|);
      var buf := data;
      ghost var prefix := data[..offset];
      var i := 0;
      while i < |bytes|
        modifies buf
        invariant 0 <= i <= |bytes|
        invariant buf[..offset + i] == prefix + bytes[..i]
      {
        ghost var written := buf[..offset + i];
        buf[offset + i] := bytes[i];
        assert buf[..offset + i + 1] == written + [bytes[i]];
        assert bytes[..i + 1] == bytes[..i] + [bytes[i]];
        i := i + 1;
      }
      assert bytes[..|bytes|] == bytes;
      offset := offset + |bytes|;
    }

    /**
      Relative `writeVString(text)`: room for the whole record first, then the varint of the
      UTF-8 byte count and the UTF-8 bytes, which is `Frame` of those bytes.
    */
    method WriteVString(text: string, encode: string -> seq<uint8>)
      requires Valid()
      modifies this, data
      ensures Valid() && limit == old(limit)
      ensures Written() == old(Written()) + Frame(encode(text))
    {
      var bytes := encode(text);
      var count := |bytes| % TWO_TO_THE_32;
      EnsureRoom(offset + |EncodeVarint32(count)| + |bytes|);
      WriteVarint32(count);
      WriteBytes(bytes);
    }

    /** `copy(begin, end)` read back as bytes. */
    method Copy(begin: nat, end: nat) returns (r: seq<uint8>)
      requires Valid() && begin <= end <= data.Length
      ensures r == data[begin..end]
      ensures begin == 0 && end == offset ==> r == Written()
    {
      r := data[begin..end];
    }

    /**
      Absolute `readVarint32(at)`: the varint that starts at `at`, reading no further than
      the limit.  Only the first five groups contribute; the cursor does not move.
    */
    method PeekVarint32(at: nat) returns (r: Result<Varint, VarintError>)
      requires Valid()
      ensures r == ParseVarint32(Window(at))
    {
      ghost var s := Window(at);
      GatheredStart(s);
      var i := at;
      var value: nat := 0;
      var scale: nat := 1;
      var groups: nat := 0;
      while true
        invariant i == at + groups
        invariant Gathered(s, value, scale, groups)
        decreases |s| - groups
      {
        if i >= limit {
          GatheredAll(s, value, scale, groups);
          return Err(Truncated);
        }
        var b := data[i];
        assert b == s[groups];
        if !Continues(b) {
          GatheredLast(s, value, scale, groups);
        } else {
          GatheredContinue(s, value, scale, groups);
        }
        if groups < MAX_GROUPS32 {
          value := value + (b % 0x80) * scale;
          scale := scale * 0x80;
        }
        i := i + 1;
        groups := groups + 1;
        if !Continues(b) {
          return Ok(Varint(value % TWO_TO_THE_32, groups));
        }
      }
    }

    /** Relative `readVarint32()`: as PeekVarint32 at the cursor, advancing past the varint. */
    method ReadVarint32() returns (r: Result<uint32, VarintError>)
      requires Valid()
      modifies this`offset
      ensures Valid()
      ensures var p := ParseVarint32(old(Unread()));
        && (p.Ok? ==> r == Ok(p.value.value) && offset == old(offset) + p.value.size)
        && (p.Err? ==> r.Err? && offset == old(offset))
    {
      var p := PeekVarint32(offset);
      match p
      case Err(e) =>
        r := Err(e);
      case Ok(v) =>
        r := Ok(v.value);
        offset := offset + v.size;
    }

    /**
      Relative `readVString()`, the strict stage: the length-prefixed string at the cursor.
      On success the cursor moves past the whole record; on any failure it stays.
    */
    method ReadVString(decodeStrict: seq<uint8> -> Option<string>) returns (r: Result<string, FrameError>)
      requires Valid()
      modifies this`offset
      ensures Valid()
      ensures r == TryStrictFrame(old(Unread()), decodeStrict)
      ensures r.Ok? ==> var p := ParseVarint32(old(Unread())).value;
                        offset == old(offset) + p.size + p.value
      ensures r.Err? ==> offset == old(offset)
    {
      var p := PeekVarint32(offset);
      if p.Err? {
        return Err(PrefixTruncated);
      }
      assert offset <= limit && Unread() == data[offset..limit];
      var start := offset + p.value.size;
      var end := start + p.value.value;
      if end > limit {
        return Err(IllegalRange);
      }
      SliceOfSlice(data[..], offset, limit, p.value.size, p.value.size + p.value.value);
      var text := decodeStrict(data[start..end]);
      if text.None? {
        return Err(InvalidUtf8);
      }
      offset := end;
      return Ok(text.value);
    }

    /** `remaining()`: limit minus cursor. */
    method Remaining() returns (n: int)
      requires Valid()
      ensures n == limit - offset
      ensures offset <= limit ==> n == |Unread()|
    {
      n := limit - offset;
    }

    /** `toString('binary')`: the bytes from the cursor to the limit. */
    method RemainingBytes() returns (r: seq<uint8>)
      requires Valid() && offset <= limit
      ensures r == Unread()
    {
      r := data[offset..limit];
    }
  }
}
