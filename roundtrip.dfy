/**
 * The central property of the codec: reading back what `toBytes` wrote
 * gives the tree that was written, and leaves whatever followed it unread.
 *
 * In the Intended mode this holds for every well-formed tree whose lengths
 * fit their fields. As written, it also needs every name to be ASCII (the
 * length prefix counts characters, the decoder reads that many octets) and no
 * unnamed String (its payload is written but never read).
 */
module RoundTrip {
  import opened Wrappers
  import opened Bytes
  import opened Tags
  import opened Codec
  import Utf8

  // ---------------------------------------------------------------------
  // Which trees the round trip is about

  /** The trees the as-written code carries faithfully: ASCII names, no unnamed String. */
  predicate FitsAsWritten(t: Tag)
  {
    (t.named ==> Utf8.IsAscii(t.name)) &&
    (!t.named ==> !t.payload.StringVal?) &&
    match t.payload
    case ListVal(_, _, items) => forall i :: 0 <= i < |items| ==> FitsAsWritten(items[i])
    case CompoundVal(members) => forall i :: 0 <= i < |members| ==> FitsAsWritten(members[i])
    case _ => true
  }

  /** What the round trip demands of a tree in a mode. */
  predicate Carried(t: Tag, mode: Mode)
  {
    WellFormed(t) && (mode == AsWritten ==> FitsAsWritten(t))
  }

  /** The items of a carried List are unnamed, of the element kind, and carried. */
  predicate ItemsCarried(items: seq<Tag>, elemType: byte, mode: Mode)
  {
    forall i :: 0 <= i < |items| ==>
      !items[i].named && TypeNumber(KindOf(items[i].payload)) == elemType && Carried(items[i], mode)
  }

  /** The members of a carried Compound are named and carried. */
  predicate MembersCarried(members: seq<Tag>, mode: Mode)
  {
    forall i :: 0 <= i < |members| ==> members[i].named && Carried(members[i], mode)
  }

  lemma {:induction false} CarriedList(t: Tag, mode: Mode)
    requires t.payload.ListVal? && Carried(t, mode)
    ensures |t.payload.items| == ItemCount(t.payload.number)
    ensures ItemsCarried(t.payload.items, t.payload.elemType, mode)
  {
    assert WellFormedPayload(t.payload);
  }

  lemma {:induction false} CarriedCompound(t: Tag, mode: Mode)
    requires t.payload.CompoundVal? && Carried(t, mode)
    ensures MembersCarried(t.payload.members, mode)
  {
    assert WellFormedPayload(t.payload);
  }

  lemma {:induction false} ItemsCarriedTail(items: seq<Tag>, elemType: byte, mode: Mode)
    requires items != [] && ItemsCarried(items, elemType, mode)
    ensures !items[0].named && TypeNumber(KindOf(items[0].payload)) == elemType && Carried(items[0], mode)
    ensures ItemsCarried(items[1..], elemType, mode)
  {
    assert forall i :: 0 <= i < |items[1..]| ==> items[1..][i] == items[i + 1];
  }

  lemma {:induction false} MembersCarriedTail(members: seq<Tag>, mode: Mode)
    requires members != [] && MembersCarried(members, mode)
    ensures members[0].named && Carried(members[0], mode)
    ensures MembersCarried(members[1..], mode)
  {
    assert forall i :: 0 <= i < |members[1..]| ==> members[1..][i] == members[i + 1];
  }

  // ---------------------------------------------------------------------
  // The layout of an encoding

  lemma Assoc(a: seq<byte>, b: seq<byte>, c: seq<byte>)
    ensures a + b + c == a + (b + c)
  {
  }

  /** An encoded tag without its type octet is its name part, then its payload part. */
  lemma {:induction false} TagParts(t: Tag, mode: Mode, enc: seq<byte>) returns (name: seq<byte>, body: seq<byte>)
    requires EncodeTag(t, false, mode) == Some(enc)
    ensures EncodeName(t, mode) == Some(name) && EncodePayload(t.payload, mode) == Some(body)
    ensures enc == name + body
  {
    name := EncodeName(t, mode).value;
    body := EncodePayload(t.payload, mode).value;
    assert [] + name + body == name + body;
  }

  /** With the type octet, an encoded tag is that octet followed by the encoding without it. */
  lemma {:induction false} TypedParts(t: Tag, mode: Mode, enc: seq<byte>) returns (untyped: seq<byte>)
    requires EncodeTag(t, true, mode) == Some(enc)
    ensures EncodeTag(t, false, mode) == Some(untyped)
    ensures enc == [TypeNumber(KindOf(t.payload))] + untyped
  {
    var name := EncodeName(t, mode).value;
    var body := EncodePayload(t.payload, mode).value;
    untyped := name + body;
    assert [] + name + body == untyped;
    Assoc([TypeNumber(KindOf(t.payload))], name, body);
  }

  /** A non-empty encoded sequence is its first tag's encoding followed by the rest's. */
  lemma {:induction false} SeqParts(ts: seq<Tag>, withTypeByte: bool, mode: Mode, enc: seq<byte>)
    returns (first: seq<byte>, rest: seq<byte>)
    requires ts != [] && EncodeSeq(ts, withTypeByte, mode) == Some(enc)
    ensures EncodeTag(ts[0], withTypeByte, mode) == Some(first)
    ensures EncodeSeq(ts[1..], withTypeByte, mode) == Some(rest)
    ensures enc == first + rest
  {
    first := EncodeTag(ts[0], withTypeByte, mode).value;
    rest := EncodeSeq(ts[1..], withTypeByte, mode).value;
  }

  lemma {:induction false} SeqEmpty(ts: seq<Tag>, withTypeByte: bool, mode: Mode, enc: seq<byte>)
    requires ts == [] && EncodeSeq(ts, withTypeByte, mode) == Some(enc)
    ensures enc == []
  {
  }

  // ---------------------------------------------------------------------
  // One unfolding of each decoding function

  lemma {:induction false} TagStep(data: seq<byte>, t: Tag, mode: Mode, mid: seq<byte>, rest: seq<byte>)
    requires ReadString(data, t.named) == Success(Decoded(t.name, mid))
    requires DecodePayload(mid, KindOf(t.payload), t.named, mode) == Success(Decoded(t.payload, rest))
    ensures DecodeTag(data, KindOf(t.payload), t.named, mode) == Success(Decoded(t, rest))
  {
  }

  lemma {:induction false} ItemsStep(data: seq<byte>, elemType: byte, items: seq<Tag>, mode: Mode,
                                     mid: seq<byte>, rest: seq<byte>)
    requires items != [] && !items[0].named && TypeNumber(KindOf(items[0].payload)) == elemType
    requires DecodeTag(data, KindOf(items[0].payload), false, mode) == Success(Decoded(items[0], mid))
    requires DecodeListItems(mid, elemType, |items| - 1, mode) == Success(Decoded(items[1..], rest))
    ensures DecodeListItems(data, elemType, |items|, mode) == Success(Decoded(items, rest))
  {
    RegistryBijection(KindOf(items[0].payload), elemType);
    assert [items[0]] + items[1..] == items;
  }

  lemma {:induction false} MembersStep(data: seq<byte>, members: seq<Tag>, mode: Mode,
                                       mid: seq<byte>, rest: seq<byte>)
    requires members != [] && members[0].named
    requires |data| > 0 && data[0] == TypeNumber(KindOf(members[0].payload))
    requires DecodeTag(data[1..], KindOf(members[0].payload), true, mode) == Success(Decoded(members[0], mid))
    requires DecodeCompoundMembers(mid, mode) == Success(Decoded(members[1..], rest))
    ensures DecodeCompoundMembers(data, mode) == Success(Decoded(members, rest))
  {
    RegistryBijection(KindOf(members[0].payload), data[0]);
    assert [members[0]] + members[1..] == members;
  }

  lemma {:induction false} ListStep(data: seq<byte>, t: Tag, mode: Mode, afterType: seq<byte>,
                                    afterCount: seq<byte>, rest: seq<byte>)
    requires t.payload.ListVal? && |t.payload.items| == ItemCount(t.payload.number)
    requires ReadOctet(data) == Success(Decoded(t.payload.elemType, afterType))
    requires ReadFixed(afterType, 4) == Success(Decoded(PackSigned(t.payload.number, 4), afterCount))
    requires DecodeListItems(afterCount, t.payload.elemType, |t.payload.items|, mode)
          == Success(Decoded(t.payload.items, rest))
    ensures DecodePayload(data, List, t.named, mode) == Success(Decoded(t.payload, rest))
  {
    SignedRoundTrip(t.payload.number, 4);
  }

  lemma {:induction false} CompoundStep(data: seq<byte>, t: Tag, mode: Mode, rest: seq<byte>)
    requires t.payload.CompoundVal?
    requires DecodeCompoundMembers(data, mode) == Success(Decoded(t.payload.members, rest))
    ensures DecodePayload(data, Compound, t.named, mode) == Success(Decoded(t.payload, rest))
  {
  }

  // ---------------------------------------------------------------------
  // The round trip

  /** A length-prefixed UTF-8 string reads back as itself. */
  lemma {:induction false} ReadEncodedString(s: string, len: seq<byte>, rest: seq<byte>)
    requires PackU16(|Utf8.Encode(s)|) == Some(len)
    ensures ReadString(len + Utf8.Encode(s) + rest, true) == Success(Decoded(s, rest))
  {
    var raw := Utf8.Encode(s);
    Assoc(len, raw, rest);
    var data := len + (raw + rest);
    assert ReadFixed(data, 2) == Success(Decoded(len, raw + rest));
    assert Chunk(raw + rest, |raw|) == Decoded(raw, rest);
    Utf8.DecodeEncode(s);
  }

  /** The name part: a named tag's name reads back; an unnamed tag's (empty) name reads nothing. */
  lemma {:induction false} DecodeEncodedName(t: Tag, mode: Mode, name: seq<byte>, rest: seq<byte>)
    requires Carried(t, mode)
    requires EncodeName(t, mode) == Some(name)
    ensures ReadString(name + rest, t.named) == Success(Decoded(t.name, rest))
  {
    if t.named {
      Utf8.EncodedLength(t.name);
      assert NameLength(t.name, mode) == |Utf8.Encode(t.name)|;
      var len := PackU16(|Utf8.Encode(t.name)|).value;
      assert name == len + Utf8.Encode(t.name);
      ReadEncodedString(t.name, len, rest);
    } else {
      assert name + rest == rest;
    }
  }

  /**
   * Decoding a tag's encoding (without its type octet) gives the tag and
   * leaves exactly what followed the encoding.
   */
  lemma {:induction false} DecodeEncodedTag(t: Tag, mode: Mode, enc: seq<byte>, rest: seq<byte>)
    requires Carried(t, mode)
    requires EncodeTag(t, false, mode) == Some(enc)
    ensures DecodeTag(enc + rest, KindOf(t.payload), t.named, mode) == Success(Decoded(t, rest))
    decreases t, 2
  {
    var name, body := TagParts(t, mode, enc);
    Assoc(name, body, rest);
    DecodeEncodedName(t, mode, name, body + rest);
    DecodeEncodedPayload(t, mode, body, rest);
    TagStep(enc + rest, t, mode, body + rest, rest);
  }

  lemma {:induction false} DecodeEncodedPayload(t: Tag, mode: Mode, body: seq<byte>, rest: seq<byte>)
    requires Carried(t, mode)
    requires EncodePayload(t.payload, mode) == Some(body)
    ensures DecodePayload(body + rest, KindOf(t.payload), t.named, mode) == Success(Decoded(t.payload, rest))
    decreases t, 1
  {
    if t.payload.ListVal? {
      DecodeEncodedList(t, mode, body, rest);
    } else if t.payload.CompoundVal? {
      DecodeEncodedCompound(t, mode, body, rest);
    } else {
      DecodeEncodedLeaf(t, mode, body, rest);
    }
  }

  /** The payloads without children: fixed-width values, byte arrays and strings. */
  lemma {:induction false} DecodeEncodedLeaf(t: Tag, mode: Mode, body: seq<byte>, rest: seq<byte>)
    requires !t.payload.ListVal? && !t.payload.CompoundVal? && Carried(t, mode)
    requires EncodePayload(t.payload, mode) == Some(body)
    ensures DecodeLeaf(body + rest, KindOf(t.payload), t.named, mode) == Success(Decoded(t.payload, rest))
  {
    match t.payload
    case ByteArrayVal(bytes) =>
      DecodeEncodedByteArray(t, mode, body, rest);
    case StringVal(text) =>
      var len := PackU16(|Utf8.Encode(text)|).value;
      ReadEncodedString(text, len, rest);
    case _ =>
      DecodeEncodedFixed(t, mode, body, rest);
  }

  /** Byte, Short, Int, Long, Float and Double: one, two, four or eight octets. */
  lemma {:induction false} DecodeEncodedFixed(t: Tag, mode: Mode, body: seq<byte>, rest: seq<byte>)
    requires !t.payload.ListVal? && !t.payload.CompoundVal?
    requires !t.payload.ByteArrayVal? && !t.payload.StringVal?
    requires EncodePayload(t.payload, mode) == Some(body)
    ensures DecodeLeaf(body + rest, KindOf(t.payload), t.named, mode) == Success(Decoded(t.payload, rest))
  {
    Pow256Widths();
    var data := body + rest;
    match t.payload
    case ByteVal(b) =>
      assert data[0] == b && data[1..] == rest;
    case ShortVal(v) =>
      SignedRoundTrip(v, 2);
      assert ReadFixed(data, 2) == Success(Decoded(body, rest));
    case IntVal(v) =>
      SignedRoundTrip(v, 4);
      assert ReadFixed(data, 4) == Success(Decoded(body, rest));
    case LongVal(v) =>
      SignedRoundTrip(v, 8);
      assert ReadFixed(data, 8) == Success(Decoded(body, rest));
    case FloatBits(f) =>
      assert ReadFixed(data, 4) == Success(Decoded(body, rest));
    case DoubleBits(d) =>
      assert ReadFixed(data, 8) == Success(Decoded(body, rest));
  }

  /** A byte array: its signed 4-octet length, then its octets. */
  lemma {:induction false} DecodeEncodedByteArray(t: Tag, mode: Mode, body: seq<byte>, rest: seq<byte>)
    requires t.payload.ByteArrayVal?
    requires EncodePayload(t.payload, mode) == Some(body)
    ensures DecodeLeaf(body + rest, ByteArray, t.named, mode) == Success(Decoded(t.payload, rest))
  {
    var bytes := t.payload.bytes;
    var len := PackLength32(|bytes|).value;
    Assoc(len, bytes, rest);
    assert ReadFixed(body + rest, 4) == Success(Decoded(len, bytes + rest));
    assert Chunk(bytes + rest, |bytes|) == Decoded(bytes, rest);
  }

  lemma {:induction false} DecodeEncodedList(t: Tag, mode: Mode, body: seq<byte>, rest: seq<byte>)
    requires t.payload.ListVal? && Carried(t, mode)
    requires EncodePayload(t.payload, mode) == Some(body)
    ensures DecodePayload(body + rest, List, t.named, mode) == Success(Decoded(t.payload, rest))
    decreases t, 0
  {
    CarriedList(t, mode);
    var elemType, number, items := t.payload.elemType, t.payload.number, t.payload.items;
    var count := PackSigned(number, 4);
    var itemsEnc := EncodeSeq(items, false, mode).value;
    var afterCount := itemsEnc + rest;
    var afterType := count + afterCount;
    assert body + rest == [elemType] + afterType by {
      Assoc([elemType] + count, itemsEnc, rest);
      Assoc([elemType], count, afterCount);
    }
    DecodeEncodedItems(items, elemType, mode, itemsEnc, rest);
    ListStep(body + rest, t, mode, afterType, afterCount, rest);
  }

  lemma {:induction false} DecodeEncodedCompound(t: Tag, mode: Mode, body: seq<byte>, rest: seq<byte>)
    requires t.payload.CompoundVal? && Carried(t, mode)
    requires EncodePayload(t.payload, mode) == Some(body)
    ensures DecodePayload(body + rest, Compound, t.named, mode) == Success(Decoded(t.payload, rest))
    decreases t, 0
  {
    CarriedCompound(t, mode);
    var membersEnc := EncodeSeq(t.payload.members, true, mode).value;
    DecodeEncodedMembers(t.payload.members, mode, membersEnc, rest);
    CompoundStep(body + rest, t, mode, rest);
  }

  /** `TagList.readMembers` reads back the items `toBytes(False)` wrote, one after another. */
  lemma {:induction false} DecodeEncodedItems(items: seq<Tag>, elemType: byte, mode: Mode,
                                              enc: seq<byte>, rest: seq<byte>)
    requires ItemsCarried(items, elemType, mode)
    requires EncodeSeq(items, false, mode) == Some(enc)
    ensures DecodeListItems(enc + rest, elemType, |items|, mode) == Success(Decoded(items, rest))
    decreases items
  {
    if items == [] {
      SeqEmpty(items, false, mode, enc);
      assert enc + rest == rest;
    } else {
      ItemsCarriedTail(items, elemType, mode);
      var first, tail := SeqParts(items, false, mode, enc);
      Assoc(first, tail, rest);
      DecodeEncodedTag(items[0], mode, first, tail + rest);
      DecodeEncodedItems(items[1..], elemType, mode, tail, rest);
      ItemsStep(enc + rest, elemType, items, mode, tail + rest, rest);
    }
  }

  /** `TagCompound.readMembers` reads back the members `toBytes()` wrote, up to the 0 octet after them. */
  lemma {:induction false} DecodeEncodedMembers(members: seq<Tag>, mode: Mode, enc: seq<byte>, rest: seq<byte>)
    requires MembersCarried(members, mode)
    requires EncodeSeq(members, true, mode) == Some(enc)
    ensures DecodeCompoundMembers(enc + [0] + rest, mode) == Success(Decoded(members, rest))
    decreases members
  {
    if members == [] {
      SeqEmpty(members, true, mode, enc);
      var data := enc + [0] + rest;
      assert data == [0] + rest;
      assert data[0] == 0 && data[1..] == rest;
    } else {
      MembersCarriedTail(members, mode);
      var first, tail := SeqParts(members, true, mode, enc);
      var untyped := TypedParts(members[0], mode, first);
      var k := TypeNumber(KindOf(members[0].payload));
      var after := tail + [0] + rest;
      var data := enc + [0] + rest;
      assert data == [k] + (untyped + after) by {
        Assoc(first, tail, [0]);
        Assoc(first, tail + [0], rest);
        Assoc([k], untyped, after);
      }
      assert data[0] == k && data[1..] == untyped + after;
      DecodeEncodedTag(members[0], mode, untyped, after);
      DecodeEncodedMembers(members[1..], mode, tail, rest);
      MembersStep(data, members, mode, after, rest);
    }
  }

  /**
   * Round trip: `read` of what `write` produced for a named Compound root is
   * that root, whenever the encoder succeeds on it.
   */
  lemma {:induction false} RootRoundTrip(root: Tag, mode: Mode)
    requires root.named && root.payload.CompoundVal?
    requires Carried(root, mode)
    requires Write(root, mode).Some?
    ensures Read(Write(root, mode).value, mode) == Success(root)
  {
    var data := Write(root, mode).value;
    var untyped := TypedParts(root, mode, data);
    DecodeEncodedTag(root, mode, untyped, []);
    assert untyped + [] == untyped;
    assert data[0] == TypeNumber(Compound) && data[1..] == untyped;
  }
}
