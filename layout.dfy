/**
 * What `toBytes` writes: when it succeeds (every `pack` of a length sees a
 * value that fits its field) and how the octets it produces are laid out.
 */
module Layout {
  import opened Wrappers
  import opened Bytes
  import opened Tags
  import opened Codec
  import Utf8

  /**
   * Every length `toBytes` packs fits its field: names and String payloads
   * 16 unsigned bits, ByteArray payloads 32 signed bits.
   */
  predicate LengthsFit(t: Tag, mode: Mode)
    decreases t, 1
  {
    (t.named ==> NameLength(t.name, mode) < 0x1_0000) && PayloadFits(t.payload, mode)
  }

  predicate PayloadFits(p: Payload, mode: Mode)
    decreases p, 0
  {
    match p
    case ByteArrayVal(bytes) => |bytes| < 0x8000_0000
    case StringVal(text) => |Utf8.Encode(text)| < 0x1_0000
    case ListVal(_, _, items) => forall i :: 0 <= i < |items| ==> LengthsFit(items[i], mode)
    case CompoundVal(members) => forall i :: 0 <= i < |members| ==> LengthsFit(members[i], mode)
    case _ => true
  }

  /** `toBytes` raises exactly when some length does not fit its field. */
  lemma {:induction false} EncodeTagSucceeds(t: Tag, withTypeByte: bool, mode: Mode)
    ensures EncodeTag(t, withTypeByte, mode).Some? <==> LengthsFit(t, mode)
    decreases t, 1
  {
    EncodePayloadSucceeds(t.payload, mode);
  }

  lemma {:induction false} EncodePayloadSucceeds(p: Payload, mode: Mode)
    ensures EncodePayload(p, mode).Some? <==> PayloadFits(p, mode)
    decreases p, 0
  {
    match p
    case ListVal(_, _, items) => EncodeSeqSucceeds(items, false, mode);
    case CompoundVal(members) => EncodeSeqSucceeds(members, true, mode);
    case _ =>
  }

  lemma {:induction false} EncodeSeqSucceeds(ts: seq<Tag>, withTypeByte: bool, mode: Mode)
    ensures EncodeSeq(ts, withTypeByte, mode).Some? <==> forall i :: 0 <= i < |ts| ==> LengthsFit(ts[i], mode)
    decreases ts
  {
    if ts != [] {
      EncodeTagSucceeds(ts[0], withTypeByte, mode);
      EncodeSeqSucceeds(ts[1..], withTypeByte, mode);
      assert forall i :: 1 <= i < |ts| ==> ts[i] == ts[1..][i - 1];
    }
  }

  /**
   * The header of an encoded tag: with `with_type_byte` one octet, the
   * kind's type number; for a named tag a 2-octet big-endian length and the
   * UTF-8 name; for an unnamed tag nothing before the payload.
   */
  lemma HeaderLayout(t: Tag, withTypeByte: bool, mode: Mode) returns (len: seq<byte>)
    requires EncodeTag(t, withTypeByte, mode).Some?
    ensures EncodePayload(t.payload, mode).Some?
    ensures var enc := EncodeTag(t, withTypeByte, mode).value;
      var typeOctet := if withTypeByte then [TypeNumber(KindOf(t.payload))] else [];
      var body := EncodePayload(t.payload, mode).value;
      (t.named ==> |len| == 2 && FromBE(len) == NameLength(t.name, mode) &&
                   enc == typeOctet + len + Utf8.Encode(t.name) + body) &&
      (!t.named ==> enc == typeOctet + body)
  {
    var typeOctet := if withTypeByte then [TypeNumber(KindOf(t.payload))] else [];
    var name := EncodeName(t, mode).value;
    var body := EncodePayload(t.payload, mode).value;
    if t.named {
      len := PackU16(NameLength(t.name, mode)).value;
      assert typeOctet + name + body == typeOctet + len + Utf8.Encode(t.name) + body;
    } else {
      len := [];
      assert typeOctet + name + body == typeOctet + body;
    }
  }

  /**
   * A List's payload: the element type octet, the stored count as 4 signed
   * big-endian octets, then the items without type octets or names.
   */
  lemma ListLayout(elemType: byte, number: i32, items: seq<Tag>, mode: Mode, body: seq<byte>)
    requires EncodePayload(ListVal(elemType, number, items), mode) == Some(body)
    ensures |body| >= 5 && body[0] == elemType && UnpackSigned(body[1..5]) == number
    ensures EncodeSeq(items, false, mode) == Some(body[5..])
    ensures items == [] ==> |body| == 5
  {
    Pow256Widths();
    var count := PackSigned(number, 4);
    var rest := EncodeSeq(items, false, mode).value;
    assert body == [elemType] + count + rest;
    assert body[1..5] == count;
    SignedRoundTrip(number, 4);
  }

  /** A Compound's payload: its members, each with its type octet, then one 0 octet. */
  lemma CompoundLayout(members: seq<Tag>, mode: Mode, body: seq<byte>)
    requires EncodePayload(CompoundVal(members), mode) == Some(body)
    ensures |body| >= 1 && body[|body| - 1] == 0
    ensures EncodeSeq(members, true, mode) == Some(body[..|body| - 1])
    ensures members != [] ==> body[0] == TypeNumber(KindOf(members[0].payload))
  {
    var rest := EncodeSeq(members, true, mode).value;
    assert body[..|body| - 1] == rest;
    if members != [] {
      var first := EncodeTag(members[0], true, mode).value;
      var len := HeaderLayout(members[0], true, mode);
      assert first[0] == TypeNumber(KindOf(members[0].payload));
      assert rest == first + EncodeSeq(members[1..], true, mode).value;
    }
  }

  /** A ByteArray's payload: its length as 4 signed big-endian octets, then the octets verbatim. */
  lemma ByteArrayLayout(bytes: seq<byte>, mode: Mode, body: seq<byte>)
    requires EncodePayload(ByteArrayVal(bytes), mode) == Some(body)
    ensures |body| == 4 + |bytes| && UnpackSigned(body[..4]) == |bytes| && body[4..] == bytes
  {
    var len := PackLength32(|bytes|).value;
    assert body == len + bytes;
    assert body[..4] == len;
  }

  /** A String's payload: the length of its UTF-8 encoding in 2 big-endian octets, then the encoding. */
  lemma StringLayout(text: string, mode: Mode, body: seq<byte>)
    requires EncodePayload(StringVal(text), mode) == Some(body)
    ensures |body| >= 2 && FromBE(body[..2]) == |Utf8.Encode(text)| && body[2..] == Utf8.Encode(text)
  {
    var len := PackU16(|Utf8.Encode(text)|).value;
    assert body == len + Utf8.Encode(text);
    assert body[..2] == len;
  }

  /**
   * The fixed-width payloads: Byte one octet, Short, Int and Long 2, 4 and 8
   * octets of big-endian two's complement that read back as the value,
   * Float and Double their 4 and 8 octets.
   */
  lemma FixedLayout(p: Payload, mode: Mode)
    requires !p.ByteArrayVal? && !p.StringVal? && !p.ListVal? && !p.CompoundVal?
    ensures EncodePayload(p, mode).Some?
    ensures var body := EncodePayload(p, mode).value;
      match p
      case ByteVal(b) => body == [b]
      case ShortVal(v) => |body| == 2 && UnpackSigned(body) == v
      case IntVal(v) => |body| == 4 && UnpackSigned(body) == v
      case LongVal(v) => |body| == 8 && UnpackSigned(body) == v
      case FloatBits(f) => body == f
      case DoubleBits(d) => body == d
      case _ => false
  {
    Pow256Widths();
    match p
    case ShortVal(v) => SignedRoundTrip(v, 2);
    case IntVal(v) => SignedRoundTrip(v, 4);
    case LongVal(v) => SignedRoundTrip(v, 8);
    case _ =>
  }
}
