/**
 * The tag classes' `parse`, `readString`, `readByteArray`, `readMembers` and
 * `toBytes` methods, and the root check of `read`, as imperative code over a
 * stream with a cursor. Each method is proved to do what the matching
 * function of Codec computes.
 */
module Parser {
  import opened Wrappers
  import opened Bytes
  import opened Tags
  import Codec
  import Utf8

  /** The (decompressed) file object `parse` reads from: its octets and a cursor. */
  class ByteStream {
    const data: seq<byte>
    var pos: nat

    predicate Valid()
      reads this
    {
      pos <= |data|
    }

    /** The octets not yet read. */
    function Rest(): seq<byte>
      reads this
      requires Valid()
    {
      data[pos..]
    }

    constructor(data: seq<byte>)
      ensures Valid() && this.data == data && pos == 0 && Rest() == data
    {
      this.data := data;
      pos := 0;
    }

    /**
     * `file.read(n)`: the next n octets, fewer at the end, all that is left
     * for n == -1. A smaller n raises ValueError, so callers check it first.
     */
    method Read(n: int) returns (chunk: seq<byte>)
      requires Valid() && n >= -1
      modifies this
      ensures Valid() && old(pos) <= pos
      ensures chunk == Codec.Chunk(old(Rest()), n).value
      ensures Rest() == Codec.Chunk(old(Rest()), n).rest
    {
      if 0 <= n <= |data| - pos {
        chunk := data[pos..pos + n];
        pos := pos + n;
      } else {
        chunk := data[pos..];
        pos := |data|;
      }
    }
  }

  /**
   * A method's result `r`, with the stream left at `rest`, is the outcome `d`
   * of the decoding function: the same value and the same octets left, or the
   * same error.
   */
  predicate Agrees<T(==)>(r: Result<T, Codec.DecodeError>, rest: seq<byte>, d: Codec.Decoding<T>)
  {
    match d
    case Success(x) => r == Success(x.value) && rest == x.rest
    case Failure(e) => r == Failure(e)
  }

  /** The tags read so far in a `readMembers` loop, in front of what the remaining reads give. */
  function Prepend(done: seq<Tag>, d: Codec.Decoding<seq<Tag>>): Codec.Decoding<seq<Tag>>
  {
    match d
    case Success(x) => Success(Codec.Decoded(done + x.value, x.rest))
    case Failure(e) => Failure(e)
  }

  lemma PrependEmpty(d: Codec.Decoding<seq<Tag>>)
    ensures Prepend([], d) == d
  {
    if d.Success? {
      assert [] + d.value.value == d.value.value;
    }
  }

  lemma PrependMore(done: seq<Tag>, t: Tag, d: Codec.Decoding<seq<Tag>>)
    ensures Prepend(done + [t], d) == Prepend(done, Prepend([t], d))
  {
    if d.Success? {
      assert done + [t] + d.value.value == done + ([t] + d.value.value);
    }
  }

  /** One turn of `TagCompound.readMembers`' loop: a member of type `n`, then the next type octet. */
  lemma MembersLoopStep(done: seq<Tag>, n: byte, before: seq<byte>, m: Tag, after: seq<byte>, mode: Codec.Mode)
    requires n != 0 && Codec.LookupClass(n).Success?
    requires Codec.DecodeTag(before, Codec.LookupClass(n).value, true, mode) == Success(Codec.Decoded(m, after))
    ensures Prepend(done, Codec.DecodeCompoundMembers([n] + before, mode))
            == Prepend(done + [m], Codec.DecodeCompoundMembers(after, mode))
  {
    assert ([n] + before)[0] == n && ([n] + before)[1..] == before;
    PrependMore(done, m, Codec.DecodeCompoundMembers(after, mode));
  }

  /** `ord(file.read(1))`. */
  method ReadOctet(s: ByteStream) returns (r: Result<byte, Codec.DecodeError>)
    requires s.Valid()
    modifies s
    ensures s.Valid() && old(s.pos) <= s.pos
    ensures Agrees(r, s.Rest(), Codec.ReadOctet(old(s.Rest())))
  {
    var chunk := s.Read(1);
    if |chunk| == 0 {
      r := Failure(Codec.ShortRead);
    } else {
      r := Success(chunk[0]);
    }
  }

  /** `unpack(fmt, file.read(n))` for an n-octet format: the n octets, or struct.error. */
  method ReadFixed(s: ByteStream, n: nat) returns (r: Result<seq<byte>, Codec.DecodeError>)
    requires s.Valid()
    modifies s
    ensures s.Valid() && old(s.pos) <= s.pos
    ensures Agrees(r, s.Rest(), Codec.ReadFixed(old(s.Rest()), n))
  {
    var chunk := s.Read(n);
    if |chunk| < n {
      r := Failure(Codec.ShortRead);
    } else {
      r := Success(chunk);
    }
  }

  /** `Tag.readString`. */
  method ReadString(s: ByteStream, named: bool) returns (r: Result<string, Codec.DecodeError>)
    requires s.Valid()
    modifies s
    ensures s.Valid() && old(s.pos) <= s.pos
    ensures Agrees(r, s.Rest(), Codec.ReadString(old(s.Rest()), named))
  {
    if !named {
      return Success("");
    }
    var len := ReadFixed(s, 2);
    if len.Failure? {
      return Failure(len.error);
    }
    var raw := s.Read(FromBE(len.value));
    match Utf8.Decode(raw)
    case None =>
      r := Failure(Codec.InvalidUtf8);
    case Some(text) =>
      r := Success(text);
  }

  /** `TagByteArray.readByteArray`. */
  method ReadByteArray(s: ByteStream) returns (r: Result<seq<byte>, Codec.DecodeError>)
    requires s.Valid()
    modifies s
    ensures s.Valid() && old(s.pos) <= s.pos
    ensures Agrees(r, s.Rest(), Codec.ReadByteArray(old(s.Rest())))
  {
    var len := ReadFixed(s, 4);
    if len.Failure? {
      return Failure(len.error);
    }
    var n := UnpackSigned(len.value);
    if n < -1 {
      return Failure(Codec.NegativeLength(n));
    }
    var bytes := s.Read(n);
    r := Success(bytes);
  }

  /**
   * `parse` of the tag object `readTag` made for `kind`: its name, then its
   * payload, as the class for `kind` reads it.
   */
  method Parse(s: ByteStream, kind: Kind, named: bool, mode: Codec.Mode) returns (r: Result<Tag, Codec.DecodeError>)
    requires s.Valid() && kind != End
    modifies s
    ensures s.Valid() && old(s.pos) <= s.pos
    ensures Agrees(r, s.Rest(), Codec.DecodeTag(old(s.Rest()), kind, named, mode))
    decreases |s.data| - s.pos, 2, 0
  {
    var name := ReadString(s, named);
    if name.Failure? {
      return Failure(name.error);
    }
    var payload := ParsePayload(s, kind, named, mode);
    if payload.Failure? {
      return Failure(payload.error);
    }
    r := Success(Tag(named, name.value, payload.value));
  }

  /** The payload half of each class's `parse`. */
  method ParsePayload(s: ByteStream, kind: Kind, named: bool, mode: Codec.Mode)
    returns (r: Result<Payload, Codec.DecodeError>)
    requires s.Valid() && kind != End
    modifies s
    ensures s.Valid() && old(s.pos) <= s.pos
    ensures Agrees(r, s.Rest(), Codec.DecodePayload(old(s.Rest()), kind, named, mode))
    decreases |s.data| - s.pos, 1, 0
  {
    if kind == List {
      var elemType := ReadOctet(s);
      if elemType.Failure? { return Failure(elemType.error); }
      var count := ReadFixed(s, 4);
      if count.Failure? { return Failure(count.error); }
      var number: i32 := UnpackSigned(count.value);
      var items := ReadListMembers(s, elemType.value, ItemCount(number), mode);
      if items.Failure? { return Failure(items.error); }
      r := Success(ListVal(elemType.value, number, items.value));
    } else if kind == Compound {
      var members := ReadCompoundMembers(s, mode);
      if members.Failure? { return Failure(members.error); }
      r := Success(CompoundVal(members.value));
    } else {
      r := ParseLeaf(s, kind, named, mode);
    }
  }

  /** The payload `parse` of the classes without children. */
  method ParseLeaf(s: ByteStream, kind: Kind, named: bool, mode: Codec.Mode)
    returns (r: Result<Payload, Codec.DecodeError>)
    requires s.Valid() && kind != End && kind != List && kind != Compound
    modifies s
    ensures s.Valid() && old(s.pos) <= s.pos
    ensures Agrees(r, s.Rest(), Codec.DecodeLeaf(old(s.Rest()), kind, named, mode))
  {
    Pow256Widths();
    match kind
    case Byte =>
      var b := ReadOctet(s);
      if b.Failure? { return Failure(b.error); }
      r := Success(ByteVal(b.value));
    case Short =>
      var v := ReadFixed(s, 2);
      if v.Failure? { return Failure(v.error); }
      r := Success(ShortVal(UnpackSigned(v.value)));
    case Int =>
      var v := ReadFixed(s, 4);
      if v.Failure? { return Failure(v.error); }
      r := Success(IntVal(UnpackSigned(v.value)));
    case Long =>
      var v := ReadFixed(s, 8);
      if v.Failure? { return Failure(v.error); }
      r := Success(LongVal(UnpackSigned(v.value)));
    case Float =>
      var v := ReadFixed(s, 4);
      if v.Failure? { return Failure(v.error); }
      r := Success(FloatBits(v.value));
    case Double =>
      var v := ReadFixed(s, 8);
      if v.Failure? { return Failure(v.error); }
      r := Success(DoubleBits(v.value));
    case ByteArray =>
      var bytes := ReadByteArray(s);
      if bytes.Failure? { return Failure(bytes.error); }
      r := Success(ByteArrayVal(bytes.value));
    case String =>
      // `readString` again: it reads nothing for an unnamed tag, as written
      var text := ReadString(s, named || mode == Codec.Intended);
      if text.Failure? { return Failure(text.error); }
      r := Success(StringVal(text.value));
  }

  /** `TagList.readMembers`: `for i in range(0, number)`, one unnamed tag of the element type each time. */
  method ReadListMembers(s: ByteStream, elemType: byte, count: nat, mode: Codec.Mode)
    returns (r: Result<seq<Tag>, Codec.DecodeError>)
    requires s.Valid()
    modifies s
    ensures s.Valid() && old(s.pos) <= s.pos
    ensures Agrees(r, s.Rest(), Codec.DecodeListItems(old(s.Rest()), elemType, count, mode))
    decreases |s.data| - s.pos, 3, count
  {
    var members: seq<Tag> := [];
    PrependEmpty(Codec.DecodeListItems(s.Rest(), elemType, count, mode));
    for i := 0 to count
      invariant s.Valid() && old(s.pos) <= s.pos
      invariant Codec.DecodeListItems(old(s.Rest()), elemType, count, mode)
             == Prepend(members, Codec.DecodeListItems(s.Rest(), elemType, count - i, mode))
    {
      ghost var before := s.Rest();
      var kind := Codec.LookupClass(elemType);
      if kind.Failure? {
        return Failure(kind.error);
      }
      var item := Parse(s, kind.value, false, mode);
      if item.Failure? {
        return Failure(item.error);
      }
      PrependMore(members, item.value, Codec.DecodeListItems(s.Rest(), elemType, count - i - 1, mode));
      members := members + [item.value];
    }
    assert members + [] == members;
    r := Success(members);
  }

  /**
   * `TagCompound.readMembers`: read a type octet; while it is not 0, read one
   * more named member of that type and the next type octet.
   */
  method ReadCompoundMembers(s: ByteStream, mode: Codec.Mode) returns (r: Result<seq<Tag>, Codec.DecodeError>)
    requires s.Valid()
    modifies s
    ensures s.Valid() && old(s.pos) <= s.pos
    ensures Agrees(r, s.Rest(), Codec.DecodeCompoundMembers(old(s.Rest()), mode))
    decreases |s.data| - s.pos, 0, 0
  {
    var members: seq<Tag> := [];
    var tagNumber := ReadOctet(s);
    if tagNumber.Failure? {
      return Failure(tagNumber.error);
    }
    var n := tagNumber.value;
    PrependEmpty(Codec.DecodeCompoundMembers(old(s.Rest()), mode));
    while n != 0
      invariant s.Valid() && old(s.pos) < s.pos
      invariant Codec.DecodeCompoundMembers(old(s.Rest()), mode)
             == Prepend(members, Codec.DecodeCompoundMembers([n] + s.Rest(), mode))
      decreases |s.data| - s.pos
    {
      assert ([n] + s.Rest())[1..] == s.Rest();
      var kind := Codec.LookupClass(n);
      if kind.Failure? {
        return Failure(kind.error);
      }
      ghost var before := s.Rest();
      var member := Parse(s, kind.value, true, mode);
      if member.Failure? {
        return Failure(member.error);
      }
      ghost var afterMember := s.Rest();
      MembersLoopStep(members, n, before, member.value, afterMember, mode);
      tagNumber := ReadOctet(s);
      if tagNumber.Failure? {
        return Failure(tagNumber.error);
      }
      members := members + [member.value];
      n := tagNumber.value;
    }
    assert ([n] + s.Rest())[1..] == s.Rest();
    assert members + [] == members;
    r := Success(members);
  }

  /** `read` after the gzip layer: the first octet must be 10, then the root Compound's `parse`. */
  method Read(s: ByteStream, mode: Codec.Mode) returns (r: Result<Tag, Codec.DecodeError>)
    requires s.Valid()
    modifies s
    ensures r == Codec.Read(old(s.Rest()), mode)
  {
    var first := ReadOctet(s);
    if first.Failure? {
      return Failure(first.error);
    }
    if first.value != TypeNumber(Compound) {
      return Failure(Codec.NotCompoundRoot(first.value));
    }
    r := Parse(s, Compound, true, mode);
  }

  /** `done` put in front of the octets `e` encodes; None stays None. */
  function Extend(done: seq<byte>, e: Option<seq<byte>>): Option<seq<byte>>
  {
    match e
    case Some(x) => Some(done + x)
    case None => None
  }

  lemma ExtendEmpty(e: Option<seq<byte>>)
    ensures Extend([], e) == e
  {
    if e.Some? {
      assert [] + e.value == e.value;
    }
  }

  lemma ExtendMore(done: seq<byte>, more: seq<byte>, e: Option<seq<byte>>)
    ensures Extend(done + more, e) == Extend(done, Extend(more, e))
  {
    if e.Some? {
      assert done + more + e.value == done + (more + e.value);
    }
  }

  /**
   * `toBytes(with_type_byte)`: the type octet if asked for, the name if the
   * tag is named, then the class's own payload octets. None where `pack`
   * raises.
   */
  method ToBytes(t: Tag, withTypeByte: bool, mode: Codec.Mode) returns (r: Option<seq<byte>>)
    ensures r == Codec.EncodeTag(t, withTypeByte, mode)
    decreases t, 1
  {
    var bytes: seq<byte> := if withTypeByte then [TypeNumber(KindOf(t.payload))] else [];
    if t.named {
      var len := Codec.PackU16(Codec.NameLength(t.name, mode));
      if len.None? {
        return None;
      }
      bytes := bytes + (len.value + Utf8.Encode(t.name));
    } else {
      assert bytes + [] == bytes;
    }
    var body := PayloadBytes(t.payload, mode);
    if body.None? {
      return None;
    }
    r := Some(bytes + body.value);
  }

  /** The octets each class's `toBytes` appends after the name. */
  method PayloadBytes(p: Payload, mode: Codec.Mode) returns (r: Option<seq<byte>>)
    ensures r == Codec.EncodePayload(p, mode)
    decreases p, 0
  {
    Pow256Widths();
    match p
    case ByteVal(b) => r := Some([b]);
    case ShortVal(v) => r := Some(PackSigned(v, 2));
    case IntVal(v) => r := Some(PackSigned(v, 4));
    case LongVal(v) => r := Some(PackSigned(v, 8));
    case FloatBits(f) => r := Some(f);
    case DoubleBits(d) => r := Some(d);
    case ByteArrayVal(bytes) =>
      var len := Codec.PackLength32(|bytes|);
      if len.None? {
        return None;
      }
      r := Some(len.value + bytes);
    case StringVal(text) =>
      var raw := Utf8.Encode(text);
      var len := Codec.PackU16(|raw|);
      if len.None? {
        return None;
      }
      r := Some(len.value + raw);
    case ListVal(elemType, number, items) =>
      var body := MembersBytes(items, false, mode);
      if body.None? {
        return None;
      }
      r := Some([elemType] + PackSigned(number, 4) + body.value);
    case CompoundVal(members) =>
      var body := MembersBytes(members, true, mode);
      if body.None? {
        return None;
      }
      r := Some(body.value + [0]);
  }

  /**
   * The `for member in self.members: bytes.extend(member.toBytes(...))`
   * loops of TagList (no type octets) and TagCompound (with them).
   */
  method MembersBytes(ts: seq<Tag>, withTypeByte: bool, mode: Codec.Mode) returns (r: Option<seq<byte>>)
    ensures r == Codec.EncodeSeq(ts, withTypeByte, mode)
    decreases ts, 2
  {
    var body: seq<byte> := [];
    assert ts[0..] == ts;
    ExtendEmpty(Codec.EncodeSeq(ts, withTypeByte, mode));
    for i := 0 to |ts|
      invariant Codec.EncodeSeq(ts, withTypeByte, mode)
                == Extend(body, Codec.EncodeSeq(ts[i..], withTypeByte, mode))
    {
      var member := ToBytes(ts[i], withTypeByte, mode);
      assert ts[i..][0] == ts[i] && ts[i..][1..] == ts[i + 1..];
      if member.None? {
        return None;
      }
      ExtendMore(body, member.value, Codec.EncodeSeq(ts[i + 1..], withTypeByte, mode));
      body := body + member.value;
    }
    assert body + [] == body;
    r := Some(body);
  }

  /** `write` without the gzip layer: the root's `toBytes()`. */
  method Write(root: Tag, mode: Codec.Mode) returns (r: Option<seq<byte>>)
    ensures r == Codec.Write(root, mode)
  {
    r := ToBytes(root, true, mode);
  }
}
