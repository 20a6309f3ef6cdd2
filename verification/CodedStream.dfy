/** Reading from and writing to flat arrays (io/coded_stream.h). */
module CodedStream {
  import opened Bytes
  import opened Varint

  /** What ReadTag finds at the front of the unread bytes. */
  datatype TagRead = TagRead(tag: uint32, size: nat, atEnd: bool)

  /** The next varint as a tag; zero when there is none. */
  function NextTag(s: Bytes): (r: TagRead)
    ensures r.size <= |s|
    ensures r.tag != 0 ==> r.size >= 1 && !r.atEnd
  {
    if s == [] then TagRead(0, 0, true)
    else
      match ReadVarint32(s)
      case None => TagRead(0, 0, false)
      case Some((v, n)) => TagRead(v, n, false)
  }

  /** A length and that many bytes; the length is passed on as an int, and a negative one is refused. */
  function NextString(s: Bytes): (r: Option<(Bytes, nat)>)
    ensures r.Some? ==> 1 <= r.value.1 <= |s|
  {
    match ReadVarint32(s)
    case None => None
    case Some((len, n)) =>
      if len < TWO_31 && n + len <= |s| then Some((s[n..n + len], n + len)) else None
  }

  /** The low-order k-byte word at the front of s. */
  function NextFixed(s: Bytes, k: nat): Option<(nat, nat)> {
    if |s| >= k then Some((DecodeLE(s[..k]), k)) else None
  }

  lemma DropTwice(s: Bytes, a: nat, b: nat)
    requires a + b <= |s|
    ensures s[a..][b..] == s[a + b..]
  {
  }

  class CodedInputStream {
    const buffer: Bytes
    var pos: nat
    var lastTag: uint32
    var legitimateMessageEnd: bool

    ghost predicate Valid()
      reads this
    {
      pos <= |buffer|
    }

    /** the unread bytes */
    ghost function Rest(): Bytes
      requires Valid()
      reads this
    {
      buffer[pos..]
    }

    /** The stream has gone on from an earlier position. */
    ghost predicate Moved(before: nat)
      requires Valid()
      reads this
    {
      before <= pos && Rest() == buffer[before..][pos - before..]
    }

    constructor (buffer: Bytes)
      ensures Valid() && this.buffer == buffer && Rest() == buffer
      ensures lastTag == 0 && !legitimateMessageEnd
    {
      this.buffer := buffer;
      pos, lastTag, legitimateMessageEnd := 0, 0, false;
    }

    method ReadVarint32() returns (r: Option<uint32>)
      requires Valid()
      modifies this`pos
      ensures Valid()
      ensures match Varint.ReadVarint32(old(Rest()))
              case None => r == None && pos == old(pos)
              case Some((v, n)) => r == Some(v) && pos == old(pos) + n
      ensures Moved(old(pos))
    {
      if pos < |buffer| && buffer[pos] < 0x80 {
        r, pos := Some(buffer[pos]), pos + 1;
      } else {
        match Varint.ReadVarint32(buffer[pos..])
        case None => r := None;
        case Some((v, n)) => r, pos := Some(v), pos + n;
      }
    }

    method ReadVarint64() returns (r: Option<uint64>)
      requires Valid()
      modifies this`pos
      ensures Valid()
      ensures match Varint.ReadVarint64(old(Rest()))
              case None => r == None && pos == old(pos)
              case Some((v, n)) => r == Some(v) && pos == old(pos) + n
      ensures Moved(old(pos))
    {
      if pos < |buffer| && buffer[pos] < 0x80 {
        r, pos := Some(buffer[pos]), pos + 1;
      } else {
        match Varint.ReadVarint64(buffer[pos..])
        case None => r := None;
        case Some((v, n)) => r, pos := Some(v), pos + n;
      }
    }

    /** One byte is read inline; everything else goes through the fallback. */
    method ReadTag() returns (tag: uint32)
      requires Valid()
      modifies this
      ensures Valid()
      ensures var r := NextTag(old(Rest()));
              tag == r.tag == lastTag && pos == old(pos) + r.size &&
              legitimateMessageEnd == (old(legitimateMessageEnd) || r.atEnd)
      ensures Moved(old(pos))
    {
      if pos < |buffer| && buffer[pos] < 0x80 {
        lastTag, pos := buffer[pos], pos + 1;
      } else {
        var r := NextTag(buffer[pos..]);
        lastTag, pos := r.tag, pos + r.size;
        if r.atEnd { legitimateMessageEnd := true; }
      }
      tag := lastTag;
    }

    /** Advances past a canonically encoded tag below 2^14; lastTag is left alone. */
    method ExpectTag(expected: uint32) returns (b: bool)
      requires Valid()
      modifies this`pos
      ensures Valid()
      ensures b == (expected < TWO_14 && EncodeVarint(expected) <= old(Rest()))
      ensures pos == old(pos) + if b then |EncodeVarint(expected)| else 0
      ensures Moved(old(pos))
    {
      ExpectTagIffCanonical(Rest(), expected);
      b := false;
      if expected < 0x80 {
        if pos < |buffer| && buffer[pos] == expected {
          pos, b := pos + 1, true;
        }
      } else if expected < 0x4000 {
        if |buffer| - pos >= 2 && buffer[pos] == OrBit7(expected) % 256 && buffer[pos + 1] == expected / 128 % 256 {
          pos, b := pos + 2, true;
        }
      }
    }

    method ExpectAtEnd() returns (b: bool)
      requires Valid()
      modifies this`lastTag, this`legitimateMessageEnd
      ensures b == (Rest() == [])
      ensures lastTag == if b then 0 else old(lastTag)
      ensures legitimateMessageEnd == (old(legitimateMessageEnd) || b)
    {
      b := pos == |buffer|;
      if b {
        lastTag, legitimateMessageEnd := 0, true;
      }
    }

    method ReadString() returns (r: Option<Bytes>)
      requires Valid()
      modifies this`pos
      ensures Valid()
      ensures match NextString(old(Rest()))
              case None => r == None && pos == old(pos)
              case Some((text, n)) => r == Some(text) && pos == old(pos) + n
      ensures Moved(old(pos))
    {
      var start := pos;
      var length := ReadVarint32();
      if length.Some? && length.value < TWO_31 && pos + length.value <= |buffer| {
        var end := pos + length.value;
        assert buffer[start..][pos - start..end - start] == buffer[pos..end];
        r, pos := Some(buffer[pos..end]), end;
      } else {
        r, pos := None, start;
      }
    }

    /** ReadLittleEndian32 and ReadLittleEndian64 */
    method ReadLittleEndian(k: nat) returns (r: Option<nat>)
      requires Valid()
      modifies this`pos
      ensures Valid()
      ensures match NextFixed(old(Rest()), k)
              case None => r == None && pos == old(pos)
              case Some((v, n)) => r == Some(v) && pos == old(pos) + n
    {
      if |buffer| - pos >= k {
        assert buffer[pos..][..k] == buffer[pos..pos + k];
        r, pos := Some(DecodeLE(buffer[pos..pos + k])), pos + k;
      } else {
        r := None;
      }
    }

    method Skip(count: nat) returns (b: bool)
      requires Valid()
      modifies this`pos
      ensures Valid()
      ensures b == (count <= |old(Rest())|)
      ensures pos == old(pos) + if b then count else |old(Rest())|
    {
      b := count <= |buffer| - pos;
      pos := if b then pos + count else |buffer|;
    }
  }

  // ---- Writing to an array ----------------------------------------------------------

  /** s with the bytes from position at on replaced by data */
  ghost function Patch(s: Bytes, at: nat, data: Bytes): (r: Bytes)
    requires at + |data| <= |s|
    ensures |r| == |s|
  {
    s[..at] + data + s[at + |data|..]
  }

  /** Two adjacent writes are one write of both pieces. */
  lemma PatchTwice(s: Bytes, at: nat, first: Bytes, second: Bytes)
    requires at + |first| + |second| <= |s|
    ensures Patch(Patch(s, at, first), at + |first|, second) == Patch(s, at, first + second)
  {
  }

  lemma PatchNothing(s: Bytes, at: nat)
    requires at <= |s|
    ensures Patch(s, at, []) == s
  {
  }

  method WriteRawToArray(data: Bytes, target: array<byte>, at: nat) returns (end: nat)
    requires at + |data| <= target.Length
    modifies target
    ensures end == at + |data|
    ensures target[..] == Patch(old(target[..]), at, data)
  {
    for i := 0 to |data|
      invariant forall j | 0 <= j < target.Length ::
        target[j] == if at <= j < at + i then data[j - at] else old(target[j])
    {
      target[at + i] := data[i];
    }
    end := at + |data|;
  }

  method WriteVarint32ToArray(value: uint32, target: array<byte>, at: nat) returns (end: nat)
    requires at + |EncodeVarint(value)| <= target.Length
    modifies target
    ensures end == at + |EncodeVarint(value)|
    ensures target[..] == Patch(old(target[..]), at, EncodeVarint(value))
  {
    var v: nat := value;
    ghost var done: Bytes := [];
    end := at;
    PatchNothing(target[..], at);
    while v >= 0x80
      invariant EncodeVarint(value) == done + EncodeVarint(v)
      invariant end == at + |done|
      invariant target[..] == Patch(old(target[..]), at, done)
    {
      PutByte(target, end, v % 128 + 128);
      PatchTwice(old(target[..]), at, done, [v % 128 + 128]);
      Regroup(done, [v % 128 + 128], EncodeVarint(v / 128));
      done := done + [v % 128 + 128];
      v, end := v / 128, end + 1;
    }
    PutByte(target, end, v);
    PatchTwice(old(target[..]), at, done, [v]);
    end := end + 1;
  }

  method PutByte(target: array<byte>, at: nat, b: byte)
    requires at < target.Length
    modifies target
    ensures target[..] == Patch(old(target[..]), at, [b])
  {
    target[at] := b;
  }

  method WriteTagToArray(value: uint32, target: array<byte>, at: nat) returns (end: nat)
    requires at + |EncodeVarint(value)| <= target.Length
    modifies target
    ensures end == at + |EncodeVarint(value)|
    ensures target[..] == Patch(old(target[..]), at, EncodeVarint(value))
  {
    WriteTagIsCanonical(value);
    if value < 0x80 {
      target[at] := value;
      end := at + 1;
    } else if value < 0x4000 {
      target[at] := OrBit7(value) % 256;
      target[at + 1] := value / 128 % 256;
      end := at + 2;
    } else {
      end := WriteVarint32ToArray(value, target, at);
    }
  }
}
