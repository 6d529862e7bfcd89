/**
 * Two places where `write` followed by `read` does not give back the tree
 * that was written, each shown for a whole family of trees, and the round trip of
 * the corrected codec (`Mode.Intended`) that removes both.
 */
module Defects {
  import opened Wrappers
  import opened Bytes
  import opened Tags
  import opened Codec
  import Utf8
  import Layout
  import RoundTrip

  /**
   * The name length is written as `len(self.name)`, a count of characters,
   * while the reader takes that many octets of UTF-8. A root named by one
   * character outside ASCII (two to four octets in UTF-8) gets the length 1;
   * reading it back takes only the first octet of that character, which is
   * not valid UTF-8 on its own, so `read` fails for every members whose
   * lengths fit (those for which `write` succeeds).
   */
  lemma NonAsciiNameBreaksRead(c: char, members: seq<Tag>)
    requires (c as int) >= 0x80
    requires Layout.LengthsFit(Tag(true, [c], CompoundVal(members)), AsWritten)
    ensures Write(Tag(true, [c], CompoundVal(members)), AsWritten).Some?
    ensures Read(Write(Tag(true, [c], CompoundVal(members)), AsWritten).value, AsWritten) == Failure(InvalidUtf8)
  {
    var root := Tag(true, [c], CompoundVal(members));
    Layout.EncodeTagSucceeds(root, true, AsWritten);
    var data := Write(root, AsWritten).value;
    assert data == EncodeTag(root, true, AsWritten).value;
    var len := Layout.HeaderLayout(root, true, AsWritten);
    var body := EncodePayload(root.payload, AsWritten).value;
    assert KindOf(root.payload) == Compound;
    var octets := OneCharName(c);
    BadNameRead(data, len, octets, body);
  }

  /** A root whose name length 1 stands before a non-ASCII octet does not read back. */
  lemma BadNameRead(data: seq<byte>, len: seq<byte>, octets: seq<byte>, body: seq<byte>)
    requires data == [TypeNumber(Compound)] + len + octets + body
    requires |len| == 2 && FromBE(len) == 1
    requires |octets| >= 1 && octets[0] >= 0x80
    ensures Read(data, AsWritten) == Failure(InvalidUtf8)
  {
    var after := octets + body;
    assert after[0] == octets[0];
    LengthOneReadFails(len, after);
    Regroup3([TypeNumber(Compound)], len, octets, body);
    assert ReadOctet(data) == Success(Decoded(TypeNumber(Compound), len + after));
    assert DecodeTag(len + after, Compound, true, AsWritten) == Failure(InvalidUtf8);
  }

  lemma Regroup3(a: seq<byte>, b: seq<byte>, c: seq<byte>, d: seq<byte>)
    ensures a + b + c + d == a + (b + (c + d))
  {
  }

  /** A one-character name outside ASCII: its UTF-8 octets start with a non-ASCII octet. */
  lemma OneCharName(c: char) returns (octets: seq<byte>)
    requires (c as int) >= 0x80
    ensures Utf8.Encode([c]) == octets && |octets| >= 2 && octets[0] >= 0x80
  {
    octets := Utf8.EncodeChar(c);
    assert [c][1..] == [];
    assert Utf8.EncodeNonEmpty([c]) == octets + Utf8.Encode([]);
    assert octets + [] == octets;
  }

  /** A name length of 1 before a non-ASCII octet: the one octet read is not valid UTF-8. */
  lemma LengthOneReadFails(len: seq<byte>, after: seq<byte>)
    requires |len| == 2 && FromBE(len) == 1
    requires |after| >= 1 && after[0] >= 0x80
    ensures ReadString(len + after, true) == Failure(InvalidUtf8)
  {
    assert ReadFixed(len + after, 2) == Success(Decoded(len, after));
    assert Chunk(after, 1).value == [after[0]];
    assert Utf8.DecodeChar([after[0]]) == None;
    assert Utf8.Decode([after[0]]) == None;
  }

  /** A List named `name` holding one unnamed String `text`, inside a root named "". */
  function StringRoot(name: string, text: string): (root: Tag)
    ensures root.named && root.payload.CompoundVal? && |root.payload.members| == 1
    ensures root.payload.members[0].payload.ListVal?
    ensures root.payload.members[0].payload.items == [Tag(false, "", StringVal(text))]
  {
    Tag(true, "", CompoundVal([Tag(true, name, ListVal(TypeNumber(String), 1, [Tag(false, "", StringVal(text))]))]))
  }

  /** A sequence of one tag is encoded as that tag. */
  lemma EncodeSingle(t: Tag, withTypeByte: bool, mode: Mode, enc: seq<byte>)
    requires EncodeTag(t, withTypeByte, mode) == Some(enc)
    ensures EncodeSeq([t], withTypeByte, mode) == Some(enc)
  {
    assert [t][0] == t && [t][1..] == [];
    assert enc + [] == enc;
  }

  /** The unnamed String item, written with its length and octets; a length below 256 starts with 0. */
  lemma StringItemWritten(text: string) returns (item: seq<byte>)
    requires |Utf8.Encode(text)| < 0x100
    ensures EncodeSeq([Tag(false, "", StringVal(text))], false, AsWritten) == Some(item)
    ensures |item| >= 2 && item[0] == 0
  {
    var raw := Utf8.Encode(text);
    var len := PackU16(|raw|).value;
    assert FromBE(len[..1][..0]) == 0;
    assert FromBE(len[..1]) == len[0];
    assert FromBE(len) == len[0] * 256 + len[1];
    item := len + raw;
    var t := Tag(false, "", StringVal(text));
    assert EncodeTag(t, false, AsWritten) == Some([] + [] + item);
    assert [] + [] + item == item;
    EncodeSingle(t, false, AsWritten, item);
    assert len[0] == 0;
    assert item[0] == 0;
  }

  /** Under AsWritten the String item reads nothing: it comes back empty and its octets stay unread. */
  lemma StringItemRead(data: seq<byte>)
    ensures DecodeListItems(data, TypeNumber(String), 1, AsWritten) == Success(Decoded([Tag(false, "", StringVal(""))], data))
  {
    var t := Tag(false, "", StringVal(""));
    assert DecodeTag(data, String, false, AsWritten) == Success(Decoded(t, data));
    assert [t] + [] == [t];
  }

  /** The empty name is written as a zero length and nothing else. */
  lemma EmptyNameWritten(t: Tag)
    requires t.named && t.name == ""
    ensures EncodeName(t, AsWritten) == Some([0, 0])
  {
    Pow256Widths();
    assert ToBE(0, 2) == [0, 0];
    assert Utf8.Encode("") == [];
    assert [0, 0] + [] == [0, 0];
  }

  /** A zero length reads the empty name and nothing more. */
  lemma EmptyNameRead(rest: seq<byte>)
    ensures ReadString([0, 0] + rest, true) == Success(Decoded("", rest))
  {
    var data := [0, 0] + rest;
    assert data[..2] == [0, 0] && data[2..] == rest;
    assert FromBE([0, 0]) == 0;
    assert Utf8.Decode([]) == Some([]);
  }

  /** The octets `write` produces for `StringRoot(name, text)`, given the name's length field and the item's octets. */
  function StringRootOctets(nameLen: seq<byte>, name: string, item: seq<byte>): seq<byte>
  {
    [TypeNumber(Compound)] + ([0, 0] + ([TypeNumber(List)]
      + (nameLen + Utf8.Encode(name) + ([TypeNumber(String)] + PackSigned(1, 4) + (item + [0])))))
  }

  /** Regrouping the octets of the encoder into the reader's order. */
  lemma Regroup(c: seq<byte>, z: seq<byte>, l: seq<byte>, n: seq<byte>, e: seq<byte>,
                s: seq<byte>, p: seq<byte>, item: seq<byte>)
    ensures c + z + (l + (n + e) + (s + p + item) + [0]) == c + (z + (l + (n + e + (s + p + (item + [0])))))
  {
    calc {
      l + (n + e) + (s + p + item) + [0];
      l + ((n + e) + ((s + p + item) + [0]));
      { assert (s + p + item) + [0] == s + p + (item + [0]); }
      l + (n + e + (s + p + (item + [0])));
    }
  }

  lemma StringRootWritten(name: string, text: string) returns (nameLen: seq<byte>, item: seq<byte>)
    requires Utf8.IsAscii(name) && |name| < 0x1_0000 && |Utf8.Encode(text)| < 0x100
    ensures PackU16(|Utf8.Encode(name)|) == Some(nameLen)
    ensures |item| >= 2 && item[0] == 0
    ensures Write(StringRoot(name, text), AsWritten) == Some(StringRootOctets(nameLen, name, item))
  {
    var list := StringRoot(name, text).payload.members[0];
    var listOctets;
    nameLen, item, listOctets := ListWritten(name, text);
    EncodeSingle(list, true, AsWritten, listOctets);
    assert EncodePayload(StringRoot(name, text).payload, AsWritten) == Some(listOctets + [0]);
    EmptyNameWritten(StringRoot(name, text));
    Regroup([TypeNumber(Compound)], [0, 0], [TypeNumber(List)], nameLen, Utf8.Encode(name),
            [TypeNumber(String)], PackSigned(1, 4), item);
  }

  /** The List member of StringRoot: its type octet, ASCII name, element type, count 1 and the item. */
  lemma ListWritten(name: string, text: string) returns (nameLen: seq<byte>, item: seq<byte>, listOctets: seq<byte>)
    requires Utf8.IsAscii(name) && |name| < 0x1_0000 && |Utf8.Encode(text)| < 0x100
    ensures PackU16(|Utf8.Encode(name)|) == Some(nameLen)
    ensures |item| >= 2 && item[0] == 0
    ensures listOctets == [TypeNumber(List)] + (nameLen + Utf8.Encode(name)) + ([TypeNumber(String)] + PackSigned(1, 4) + item)
    ensures EncodeTag(StringRoot(name, text).payload.members[0], true, AsWritten) == Some(listOctets)
  {
    var list := StringRoot(name, text).payload.members[0];
    Utf8.EncodedLength(name);
    item := StringItemWritten(text);
    nameLen := PackU16(|name|).value;
    var listBody := [TypeNumber(String)] + PackSigned(1, 4) + item;
    assert EncodePayload(list.payload, AsWritten) == Some(listBody);
    assert EncodeName(list, AsWritten) == Some(nameLen + Utf8.Encode(name));
    listOctets := [TypeNumber(List)] + (nameLen + Utf8.Encode(name)) + listBody;
  }

  /** Reading the List back: the item comes back empty and the reader stops at the item's octets. */
  lemma EmptyListRead(name: string, nameLen: seq<byte>, after: seq<byte>)
    requires PackU16(|Utf8.Encode(name)|) == Some(nameLen)
    ensures DecodeTag(nameLen + Utf8.Encode(name) + ([TypeNumber(String)] + PackSigned(1, 4) + after), List, true, AsWritten)
            == Success(Decoded(StringRoot(name, "").payload.members[0], after))
  {
    Pow256Widths();
    var readList := StringRoot(name, "").payload.members[0];
    var count := PackSigned(1, 4);
    StringItemRead(after);
    SignedRoundTrip(1, 4);
    var afterType := count + after;
    RoundTrip.ListStep([TypeNumber(String)] + afterType, readList, AsWritten, afterType, after, after);
    RoundTrip.ReadEncodedString(name, nameLen, [TypeNumber(String)] + afterType);
    assert [TypeNumber(String)] + count + after == [TypeNumber(String)] + afterType;
    RoundTrip.TagStep(nameLen + Utf8.Encode(name) + ([TypeNumber(String)] + afterType), readList, AsWritten,
                      [TypeNumber(String)] + afterType, after);
  }

  /** The root's members: the List, then the 0 starting the item's octets ends the root. */
  lemma EmptyMembersRead(name: string, nameLen: seq<byte>, after: seq<byte>)
    requires PackU16(|Utf8.Encode(name)|) == Some(nameLen)
    requires |after| >= 1 && after[0] == 0
    ensures DecodeCompoundMembers([TypeNumber(List)] + (nameLen + Utf8.Encode(name) + ([TypeNumber(String)] + PackSigned(1, 4) + after)), AsWritten)
            == Success(Decoded([StringRoot(name, "").payload.members[0]], after[1..]))
  {
    var readList := StringRoot(name, "").payload.members[0];
    var listOctets := nameLen + Utf8.Encode(name) + ([TypeNumber(String)] + PackSigned(1, 4) + after);
    EmptyListRead(name, nameLen, after);
    var members := [TypeNumber(List)] + listOctets;
    assert members[0] == TypeNumber(List) && members[1..] == listOctets;
    assert DecodeCompoundMembers(after, AsWritten) == Success(Decoded([], after[1..]));
    assert [readList][1..] == [];
    RoundTrip.MembersStep(members, [readList], AsWritten, after, after[1..]);
  }

  lemma EmptyRootRead(name: string, nameLen: seq<byte>, item: seq<byte>)
    requires PackU16(|Utf8.Encode(name)|) == Some(nameLen)
    requires |item| >= 1 && item[0] == 0
    ensures Read(StringRootOctets(nameLen, name, item), AsWritten) == Success(StringRoot(name, ""))
  {
    var after := item + [0];
    var members := [TypeNumber(List)] + (nameLen + Utf8.Encode(name) + ([TypeNumber(String)] + PackSigned(1, 4) + after));
    EmptyMembersRead(name, nameLen, after);
    RoundTrip.CompoundStep(members, StringRoot(name, ""), AsWritten, after[1..]);
    EmptyNameRead(members);
    RoundTrip.TagStep([0, 0] + members, StringRoot(name, ""), AsWritten, members, after[1..]);
    var data := StringRootOctets(nameLen, name, item);
    assert data[1..] == [0, 0] + members;
  }

  /**
   * `TagString.parse` reads its payload with `readString`, which reads
   * nothing for an unnamed tag. A List holding one unnamed String `text` is
   * written with the String's length and octets, but read back holding the
   * String "": the String's octets are left in the stream, and their first
   * octet, 0 for a String shorter than 256 octets, ends the root early.
   */
  lemma UnnamedStringLost(name: string, text: string)
    requires Utf8.IsAscii(name) && |name| < 0x1_0000 && |Utf8.Encode(text)| < 0x100
    ensures WellFormed(StringRoot(name, text)) && Layout.LengthsFit(StringRoot(name, text), AsWritten)
    ensures Write(StringRoot(name, text), AsWritten).Some?
    ensures Read(Write(StringRoot(name, text), AsWritten).value, AsWritten) == Success(StringRoot(name, ""))
    ensures text != "" ==> StringRoot(name, "") != StringRoot(name, text)
  {
    var root := StringRoot(name, text);
    var list := root.payload.members[0];
    Utf8.EncodedLength(name);
    assert WellFormedPayload(list.payload);
    assert WellFormedPayload(root.payload);
    assert Layout.PayloadFits(list.payload, AsWritten);
    assert Layout.PayloadFits(root.payload, AsWritten);
    var nameLen, item := StringRootWritten(name, text);
    EmptyRootRead(name, nameLen, item);
    if text != "" {
      assert StringRoot(name, "").payload.members[0].payload.items[0].payload.text == "";
    }
  }

  /**
   * The corrected codec: every well-formed named Compound root whose lengths
   * fit their fields is written, and reading it back gives that root, with
   * any names and any Strings in any position.
   */
  lemma {:induction false} IntendedRoundTrip(root: Tag)
    requires root.named && root.payload.CompoundVal? && WellFormed(root)
    requires Layout.LengthsFit(root, Intended)
    ensures Write(root, Intended).Some?
    ensures Read(Write(root, Intended).value, Intended) == Success(root)
  {
    Layout.EncodeTagSucceeds(root, true, Intended);
    RoundTrip.RootRoundTrip(root, Intended);
  }
}
