/**
 * The tag codec of ParseMinecraftAlpha.py as functions: the recursive
 * decoder (`parse` of each tag class, `readString`, `readByteArray`, the two
 * `readMembers`, and the root check of `read`) over the octets left in the
 * stream, and the mirror encoder (`toBytes`).
 *
 * Every decoding step takes the octets not yet read and returns what it
 * decoded together with the octets left after it, as reading from the file
 * object does.
 *
 * `Mode` selects between the code as written and the evidently intended
 * behaviour at the two places where they differ: the name length prefix, and
 * the payload of an unnamed String.
 */
module Codec {
  import opened Wrappers
  import opened Bytes
  import opened Tags
  import Utf8

  /**
   * AsWritten: the name length prefix counts characters (`len(self.name)`),
   * and a String payload is read with `readString`, which reads nothing for
   * an unnamed tag. Intended: the prefix counts UTF-8 octets, and a String
   * payload is always read.
   */
  datatype Mode = AsWritten | Intended

  datatype DecodeError =
    | ShortRead              // a fixed-width field runs past the end (struct.error, or `ord` of b"")
    | NoClassFor(n: byte)    // `readTag` of a type number that names no tag class
    | InvalidUtf8            // UnicodeDecodeError of a name or String payload
    | NotCompoundRoot(first: byte) // `read`: the first octet is not 10
    | NegativeLength(length: int) // ValueError of `file.read(length)` for a length below -1

  /** A decoded value and the octets of the stream left after it. */
  datatype Decoded<T> = Decoded(value: T, rest: seq<byte>)

  type Decoding<T> = Result<Decoded<T>, DecodeError>

  // ---------------------------------------------------------------------
  // Reading fields

  /**
   * `file.read(n)` on the gzip stream: the next n octets, fewer at the end of
   * the stream, and everything that is left for n == -1. Any smaller n makes
   * the buffered reader raise ValueError, which the caller models.
   */
  function Chunk(data: seq<byte>, n: int): (r: Decoded<seq<byte>>)
    requires n >= -1
    ensures r.value + r.rest == data
    ensures 0 <= n <= |data| ==> |r.value| == n
    ensures (n == -1 || n > |data|) ==> r.value == data && r.rest == []
  {
    if 0 <= n <= |data| then Decoded(data[..n], data[n..]) else Decoded(data, [])
  }

  /** `ord(file.read(1))`: fails at the end of the stream. */
  function ReadOctet(data: seq<byte>): (r: Decoding<byte>)
    ensures r.Success? <==> |data| > 0
    ensures r.Success? ==> [r.value.value] + r.value.rest == data
    ensures r.Failure? ==> r.error == ShortRead
  {
    if |data| > 0 then Success(Decoded(data[0], data[1..])) else Failure(ShortRead)
  }

  /** `unpack(fmt, file.read(n))` for an n-octet format: fails on a short read. */
  function ReadFixed(data: seq<byte>, n: nat): (r: Decoding<seq<byte>>)
    ensures r.Success? <==> n <= |data|
    ensures r.Success? ==> |r.value.value| == n && r.value.value + r.value.rest == data
    ensures r.Failure? ==> r.error == ShortRead
  {
    if n <= |data| then Success(Decoded(data[..n], data[n..])) else Failure(ShortRead)
  }

  /**
   * `readString`: for a named tag, a 2-octet big-endian length and that many
   * octets (fewer at the end of the stream) decoded as UTF-8; for an unnamed
   * tag, the empty string, reading nothing.
   */
  function ReadString(data: seq<byte>, named: bool): (r: Decoding<string>)
    ensures r.Success? ==> |r.value.rest| <= |data|
    ensures !named ==> r == Success(Decoded("", data))
  {
    if !named then Success(Decoded("", data))
    else
      var len :- ReadFixed(data, 2);
      var raw := Chunk(len.rest, FromBE(len.value));
      match Utf8.Decode(raw.value)
      case None => Failure(InvalidUtf8)
      case Some(text) => Success(Decoded(text, raw.rest))
  }

  /**
   * `readByteArray`: a signed 4-octet length, then `file.read(length)`; a
   * length below -1 raises ValueError in the read.
   */
  function ReadByteArray(data: seq<byte>): (r: Decoding<seq<byte>>)
    ensures |data| < 4 ==> r == Failure(ShortRead)
    ensures |data| >= 4 && UnpackSigned(data[..4]) < -1 ==> r == Failure(NegativeLength(UnpackSigned(data[..4])))
    ensures |data| >= 4 && UnpackSigned(data[..4]) >= -1 ==> r.Success? && r.value.value + r.value.rest == data[4..]
    ensures |data| >= 4 && 0 <= UnpackSigned(data[..4]) <= |data| - 4 ==> |r.value.value| == UnpackSigned(data[..4])
  {
    var len :- ReadFixed(data, 4);
    var n := UnpackSigned(len.value);
    if n < -1 then Failure(NegativeLength(n)) else Success(Chunk(len.rest, n))
  }

  /** `readTag` as a decoding step: the class for a type number, or NoClassFor. */
  function LookupClass(n: byte): (r: Result<Kind, DecodeError>)
    ensures r.Success? <==> ClassFor(n).Some?
    ensures r.Success? ==> r.value == ClassFor(n).value
    ensures r.Failure? ==> r.error == NoClassFor(n)
  {
    match ClassFor(n)
    case None => Failure(NoClassFor(n))
    case Some(k) => Success(k)
  }

  // ---------------------------------------------------------------------
  // The decoder

  /** `parse` of the class for `kind`: the name (if named), then the payload. */
  function DecodeTag(data: seq<byte>, kind: Kind, named: bool, mode: Mode): (r: Decoding<Tag>)
    requires kind != End
    ensures r.Success? ==> |r.value.rest| <= |data|
    ensures r.Success? ==>
      r.value.value.named == named && KindOf(r.value.value.payload) == kind
    decreases |data|, 2, 0
  {
    var name :- ReadString(data, named);
    var payload :- DecodePayload(name.rest, kind, named, mode);
    Success(Decoded(Tag(named, name.value, payload.value), payload.rest))
  }

  /** The payload half of each class's `parse`, starting after the name. */
  function DecodePayload(data: seq<byte>, kind: Kind, named: bool, mode: Mode): (r: Decoding<Payload>)
    requires kind != End
    ensures r.Success? ==> |r.value.rest| <= |data|
    ensures r.Success? ==> KindOf(r.value.value) == kind
    decreases |data|, 1, 0
  {
    if kind == List then
      var elemType :- ReadOctet(data);
      var count :- ReadFixed(elemType.rest, 4);
      var number: i32 := UnpackSigned(count.value);
      var items :- DecodeListItems(count.rest, elemType.value, ItemCount(number), mode);
      Success(Decoded(ListVal(elemType.value, number, items.value), items.rest))
    else if kind == Compound then
      var members :- DecodeCompoundMembers(data, mode);
      Success(Decoded(CompoundVal(members.value), members.rest))
    else
      DecodeLeaf(data, kind, named, mode)
  }

  /** The payload `parse` of the classes without children. */
  function DecodeLeaf(data: seq<byte>, kind: Kind, named: bool, mode: Mode): (r: Decoding<Payload>)
    requires kind != End && kind != List && kind != Compound
    ensures r.Success? ==> |r.value.rest| <= |data|
    ensures r.Success? ==> KindOf(r.value.value) == kind
  {
    Pow256Widths();
    match kind
    case Byte =>
      var b :- ReadOctet(data);
      Success(Decoded(ByteVal(b.value), b.rest))
    case Short =>
      var s :- ReadFixed(data, 2);
      Success(Decoded(ShortVal(UnpackSigned(s.value)), s.rest))
    case Int =>
      var s :- ReadFixed(data, 4);
      Success(Decoded(IntVal(UnpackSigned(s.value)), s.rest))
    case Long =>
      var s :- ReadFixed(data, 8);
      Success(Decoded(LongVal(UnpackSigned(s.value)), s.rest))
    case Float =>
      var s :- ReadFixed(data, 4);
      Success(Decoded(FloatBits(s.value), s.rest))
    case Double =>
      var s :- ReadFixed(data, 8);
      Success(Decoded(DoubleBits(s.value), s.rest))
    case ByteArray =>
      var bytes :- ReadByteArray(data);
      Success(Decoded(ByteArrayVal(bytes.value), bytes.rest))
    case String =>
      var text :- ReadString(data, named || mode == Intended);
      Success(Decoded(StringVal(text.value), text.rest))
  }

  /** `TagList.readMembers`: `count` unnamed tags of the element type, in order. */
  function DecodeListItems(data: seq<byte>, elemType: byte, count: nat, mode: Mode): (r: Decoding<seq<Tag>>)
    ensures r.Success? ==> |r.value.rest| <= |data|
    ensures r.Success? ==> |r.value.value| == count
    ensures count > 0 && ClassFor(elemType).None? ==> r == Failure(NoClassFor(elemType))
    decreases |data|, 3, count
  {
    if count == 0 then Success(Decoded([], data))
    else
      var kind :- LookupClass(elemType);
      var item :- DecodeTag(data, kind, false, mode);
      var rest :- DecodeListItems(item.rest, elemType, count - 1, mode);
      Success(Decoded([item.value] + rest.value, rest.rest))
  }

  /**
   * `TagCompound.readMembers`: read a type octet; 0 ends the Compound,
   * anything else is the type of one more named member.
   */
  function DecodeCompoundMembers(data: seq<byte>, mode: Mode): (r: Decoding<seq<Tag>>)
    ensures r.Success? ==> |r.value.rest| < |data|
    ensures |data| == 0 ==> r == Failure(ShortRead)
    ensures |data| > 0 && data[0] != 0 && ClassFor(data[0]).None? ==> r == Failure(NoClassFor(data[0]))
    decreases |data|, 0, 0
  {
    if |data| == 0 then Failure(ShortRead)
    else if data[0] == 0 then Success(Decoded([], data[1..]))
    else
      var kind :- LookupClass(data[0]);
      var member :- DecodeTag(data[1..], kind, true, mode);
      var rest :- DecodeCompoundMembers(member.rest, mode);
      Success(Decoded([member.value] + rest.value, rest.rest))
  }

  /** `read` without the gzip layer: the first octet must be 10, then one named Compound. */
  function Read(data: seq<byte>, mode: Mode): (r: Result<Tag, DecodeError>)
    ensures |data| == 0 ==> r == Failure(ShortRead)
    ensures |data| > 0 && data[0] != TypeNumber(Compound) ==> r == Failure(NotCompoundRoot(data[0]))
    ensures r.Success? ==> r.value.named && KindOf(r.value.payload) == Compound
  {
    var first :- ReadOctet(data);
    if first.value != TypeNumber(Compound) then Failure(NotCompoundRoot(first.value))
    else
      var root :- DecodeTag(first.rest, Compound, true, mode);
      Success(root.value)
  }

  // ---------------------------------------------------------------------
  // The encoder

  /** The value written as the name length: `len(self.name)` as written. */
  function NameLength(name: string, mode: Mode): (n: nat)
    ensures n <= |Utf8.Encode(name)|
    ensures (n == |Utf8.Encode(name)|) <==> (mode == Intended || Utf8.IsAscii(name))
  {
    Utf8.EncodedLength(name);
    if mode == AsWritten then |name| else assert mode == Intended; |Utf8.Encode(name)|
  }

  /** `pack(">H", n)`: fails (struct.error) unless n fits 16 bits. */
  function PackU16(n: nat): (r: Option<seq<byte>>)
    ensures r.Some? <==> n < 0x1_0000
    ensures r.Some? ==> |r.value| == 2 && FromBE(r.value) == n
  {
    Pow256Widths();
    if n < 0x1_0000 then FromToBE(n, 2); Some(ToBE(n, 2)) else None
  }

  /** `pack(">i", n)` for a length: fails (struct.error) unless n fits 32 signed bits. */
  function PackLength32(n: nat): (r: Option<seq<byte>>)
    ensures r.Some? <==> n < 0x8000_0000
    ensures r.Some? ==> |r.value| == 4 && UnpackSigned(r.value) == n
  {
    Pow256Widths();
    if n < 0x8000_0000 then SignedRoundTrip(n, 4); Some(PackSigned(n, 4)) else None
  }

  /**
   * `toBytes(with_type_byte)`: the type octet if asked for, the name length
   * and UTF-8 name if named, then the payload. None where `pack` raises.
   */
  function EncodeTag(t: Tag, withTypeByte: bool, mode: Mode): (r: Option<seq<byte>>)
    ensures r.Some? ==> |r.value| >= 1
    ensures r.Some? && withTypeByte ==> r.value[0] == TypeNumber(KindOf(t.payload))
    decreases t, 1
  {
    var typeOctet := if withTypeByte then [TypeNumber(KindOf(t.payload))] else [];
    var name :- EncodeName(t, mode);
    var body :- EncodePayload(t.payload, mode);
    Some(typeOctet + name + body)
  }

  /** The name part of the base class's `toBytes`. */
  function EncodeName(t: Tag, mode: Mode): (r: Option<seq<byte>>)
    ensures !t.named ==> r == Some([])
    ensures t.named ==> (r.Some? <==> NameLength(t.name, mode) < 0x1_0000)
    ensures t.named && r.Some? ==> |r.value| == 2 + |Utf8.Encode(t.name)| && FromBE(r.value[..2]) == NameLength(t.name, mode)
    ensures t.named && r.Some? ==> r.value[2..] == Utf8.Encode(t.name)
  {
    if !t.named then Some([])
    else
      var len :- PackU16(NameLength(t.name, mode));
      Some(len + Utf8.Encode(t.name))
  }

  /** The payload part of each class's `toBytes`. */
  function EncodePayload(p: Payload, mode: Mode): (r: Option<seq<byte>>)
    ensures !p.ByteArrayVal? && !p.StringVal? && !p.ListVal? && !p.CompoundVal? ==> r.Some?
    ensures r.Some? ==> |r.value| >= 1
    ensures r.Some? && p.CompoundVal? ==> r.value[|r.value| - 1] == 0
    decreases p, 0
  {
    Pow256Widths();
    match p
    case ByteVal(b) => Some([b])
    case ShortVal(v) => Some(PackSigned(v, 2))
    case IntVal(v) => Some(PackSigned(v, 4))
    case LongVal(v) => Some(PackSigned(v, 8))
    case FloatBits(f) => Some(f)
    case DoubleBits(d) => Some(d)
    case ByteArrayVal(bytes) =>
      var len :- PackLength32(|bytes|);
      Some(len + bytes)
    case StringVal(text) =>
      var raw := Utf8.Encode(text);
      var len :- PackU16(|raw|);
      Some(len + raw)
    case ListVal(elemType, number, items) =>
      var body :- EncodeSeq(items, false, mode);
      Some([elemType] + PackSigned(number, 4) + body)
    case CompoundVal(members) =>
      var body :- EncodeSeq(members, true, mode);
      Some(body + [0])
  }

  /** The members' encodings, concatenated in order (`bytes.extend` in the loops). */
  function EncodeSeq(ts: seq<Tag>, withTypeByte: bool, mode: Mode): (r: Option<seq<byte>>)
    ensures ts == [] ==> r == Some([])
    ensures r.Some? ==> |r.value| >= |ts|
    decreases ts
  {
    if ts == [] then Some([])
    else
      var first :- EncodeTag(ts[0], withTypeByte, mode);
      var rest :- EncodeSeq(ts[1..], withTypeByte, mode);
      Some(first + rest)
  }

  /** `write` without the gzip layer: the root's `toBytes()`. */
  function Write(root: Tag, mode: Mode): (r: Option<seq<byte>>)
    ensures r.Some? ==> |r.value| >= 1 && r.value[0] == TypeNumber(KindOf(root.payload))
  {
    EncodeTag(root, true, mode)
  }
}
