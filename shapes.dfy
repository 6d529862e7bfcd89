/**
 * What the decoder guarantees about whatever it accepts: every tree it
 * builds is well formed (List items unnamed, of the element kind and as
 * many as the stored count; Compound members named), it only ever reads a
 * prefix of the stream, and a Compound stops right after its 0 octet.
 */
module Shapes {
  import opened Bytes
  import opened Tags
  import opened Codec

  // ---------------------------------------------------------------------
  // Decoded trees are well formed

  /** A decoded tag is well formed. */
  lemma {:induction false} DecodeTagShape(data: seq<byte>, kind: Kind, named: bool, mode: Mode)
    requires kind != End && DecodeTag(data, kind, named, mode).Success?
    ensures WellFormed(DecodeTag(data, kind, named, mode).value.value)
    decreases |data|, 2, 0
  {
    var name := ReadString(data, named).value;
    DecodePayloadShape(name.rest, kind, named, mode);
  }

  lemma {:induction false} DecodePayloadShape(data: seq<byte>, kind: Kind, named: bool, mode: Mode)
    requires kind != End && DecodePayload(data, kind, named, mode).Success?
    ensures WellFormedPayload(DecodePayload(data, kind, named, mode).value.value)
    decreases |data|, 1, 0
  {
    if kind == List {
      var elemType := ReadOctet(data).value;
      var count := ReadFixed(elemType.rest, 4).value;
      var number: i32 := UnpackSigned(count.value);
      DecodeListItemsShape(count.rest, elemType.value, ItemCount(number), mode);
    } else if kind == Compound {
      DecodeCompoundMembersShape(data, mode);
    }
  }

  /** The items of a List: unnamed, of the element kind, well formed. */
  lemma {:induction false} DecodeListItemsShape(data: seq<byte>, elemType: byte, count: nat, mode: Mode)
    requires DecodeListItems(data, elemType, count, mode).Success?
    ensures var items := DecodeListItems(data, elemType, count, mode).value.value;
      forall i :: 0 <= i < |items| ==>
        !items[i].named && TypeNumber(KindOf(items[i].payload)) == elemType && WellFormed(items[i])
    decreases |data|, 3, count
  {
    if count > 0 {
      var kind := LookupClass(elemType).value;
      RegistryBijection(kind, elemType);
      var item := DecodeTag(data, kind, false, mode).value;
      DecodeTagShape(data, kind, false, mode);
      DecodeListItemsShape(item.rest, elemType, count - 1, mode);
      var rest := DecodeListItems(item.rest, elemType, count - 1, mode).value;
      ItemsCons(item.value, rest.value, [item.value] + rest.value, elemType);
    }
  }

  /** The members of a Compound: named and well formed. */
  lemma {:induction false} DecodeCompoundMembersShape(data: seq<byte>, mode: Mode)
    requires DecodeCompoundMembers(data, mode).Success?
    ensures var members := DecodeCompoundMembers(data, mode).value.value;
      forall i :: 0 <= i < |members| ==> members[i].named && WellFormed(members[i])
    decreases |data|, 0, 0
  {
    if data[0] != 0 {
      var kind := LookupClass(data[0]).value;
      var member := DecodeTag(data[1..], kind, true, mode).value;
      DecodeTagShape(data[1..], kind, true, mode);
      DecodeCompoundMembersShape(member.rest, mode);
      var rest := DecodeCompoundMembers(member.rest, mode).value;
      MembersCons(member.value, rest.value, [member.value] + rest.value);
    }
  }

  lemma ItemsCons(m: Tag, ms: seq<Tag>, all: seq<Tag>, elemType: byte)
    requires all == [m] + ms
    requires !m.named && TypeNumber(KindOf(m.payload)) == elemType && WellFormed(m)
    requires forall i :: 0 <= i < |ms| ==>
      !ms[i].named && TypeNumber(KindOf(ms[i].payload)) == elemType && WellFormed(ms[i])
    ensures forall i :: 0 <= i < |all| ==>
      !all[i].named && TypeNumber(KindOf(all[i].payload)) == elemType && WellFormed(all[i])
  {
    assert forall i :: 1 <= i < |all| ==> all[i] == ms[i - 1];
  }

  lemma MembersCons(m: Tag, ms: seq<Tag>, all: seq<Tag>)
    requires all == [m] + ms
    requires m.named && WellFormed(m)
    requires forall i :: 0 <= i < |ms| ==> ms[i].named && WellFormed(ms[i])
    ensures forall i :: 0 <= i < |all| ==> all[i].named && WellFormed(all[i])
  {
    assert forall i :: 1 <= i < |all| ==> all[i] == ms[i - 1];
  }

  // ---------------------------------------------------------------------
  // The decoder reads a prefix of the stream and leaves the rest

  /** Reading `a` and then `b` from `data` reads `a + b`. */
  lemma Concat(data: seq<byte>, a: seq<byte>, mid: seq<byte>, b: seq<byte>, rest: seq<byte>)
    requires data == a + mid && mid == b + rest
    ensures data == (a + b) + rest
  {
  }

  lemma {:induction false} ReadStringPrefix(data: seq<byte>, named: bool) returns (consumed: seq<byte>)
    requires ReadString(data, named).Success?
    ensures data == consumed + ReadString(data, named).value.rest
    ensures !named ==> consumed == []
  {
    if named {
      var len := ReadFixed(data, 2).value;
      var raw := Chunk(len.rest, FromBE(len.value));
      consumed := len.value + raw.value;
      assert data == consumed + raw.rest;
    } else {
      consumed := [];
      assert data == [] + data;
    }
  }

  lemma {:induction false} DecodeLeafPrefix(data: seq<byte>, kind: Kind, named: bool, mode: Mode)
    returns (consumed: seq<byte>)
    requires kind != End && kind != List && kind != Compound
    requires DecodeLeaf(data, kind, named, mode).Success?
    ensures data == consumed + DecodeLeaf(data, kind, named, mode).value.rest
  {
    if kind == ByteArray {
      var len := ReadFixed(data, 4).value;
      var bytes := Chunk(len.rest, UnpackSigned(len.value));
      consumed := len.value + bytes.value;
      assert data == consumed + bytes.rest;
    } else if kind == String {
      consumed := ReadStringPrefix(data, named || mode == Intended);
    } else {
      var width := if kind == Byte then 1 else if kind == Short then 2
                   else if kind == Int || kind == Float then 4 else 8;
      assert DecodeLeaf(data, kind, named, mode).value.rest == data[width..];
      consumed := data[..width];
    }
  }

  /** A tag's decoder reads some prefix of the stream and leaves the rest untouched. */
  lemma {:induction false} DecodeTagPrefix(data: seq<byte>, kind: Kind, named: bool, mode: Mode)
    returns (consumed: seq<byte>)
    requires kind != End && DecodeTag(data, kind, named, mode).Success?
    ensures data == consumed + DecodeTag(data, kind, named, mode).value.rest
    decreases |data|, 2, 0
  {
    var name := ReadString(data, named).value;
    var head := ReadStringPrefix(data, named);
    var body := DecodePayloadPrefix(name.rest, kind, named, mode);
    consumed := head + body;
    Concat(data, head, name.rest, body, DecodeTag(data, kind, named, mode).value.rest);
  }

  lemma {:induction false} DecodePayloadPrefix(data: seq<byte>, kind: Kind, named: bool, mode: Mode)
    returns (consumed: seq<byte>)
    requires kind != End && DecodePayload(data, kind, named, mode).Success?
    ensures data == consumed + DecodePayload(data, kind, named, mode).value.rest
    decreases |data|, 1, 0
  {
    if kind == List {
      var elemType := ReadOctet(data).value;
      var count := ReadFixed(elemType.rest, 4).value;
      var number: i32 := UnpackSigned(count.value);
      var items := DecodeListItemsPrefix(count.rest, elemType.value, ItemCount(number), mode);
      var rest := DecodePayload(data, kind, named, mode).value.rest;
      Concat(elemType.rest, count.value, count.rest, items, rest);
      Concat(data, [elemType.value], elemType.rest, count.value + items, rest);
      consumed := [elemType.value] + (count.value + items);
    } else if kind == Compound {
      var members := DecodeCompoundMembersPrefix(data, mode);
      var rest := DecodePayload(data, kind, named, mode).value.rest;
      Concat(data, members, [0] + rest, [0], rest);
      consumed := members + [0];
    } else {
      consumed := DecodeLeafPrefix(data, kind, named, mode);
    }
  }

  lemma {:induction false} DecodeListItemsPrefix(data: seq<byte>, elemType: byte, count: nat, mode: Mode)
    returns (consumed: seq<byte>)
    requires DecodeListItems(data, elemType, count, mode).Success?
    ensures data == consumed + DecodeListItems(data, elemType, count, mode).value.rest
    decreases |data|, 3, count
  {
    if count == 0 {
      consumed := [];
      assert data == [] + data;
    } else {
      var kind := LookupClass(elemType).value;
      var item := DecodeTag(data, kind, false, mode).value;
      var first := DecodeTagPrefix(data, kind, false, mode);
      var others := DecodeListItemsPrefix(item.rest, elemType, count - 1, mode);
      consumed := first + others;
      Concat(data, first, item.rest, others, DecodeListItems(data, elemType, count, mode).value.rest);
    }
  }

  /**
   * A Compound's members end at the 0 octet: the decoder reads the members'
   * octets, then that 0, and nothing after it.
   */
  lemma {:induction false} DecodeCompoundMembersPrefix(data: seq<byte>, mode: Mode) returns (members: seq<byte>)
    requires DecodeCompoundMembers(data, mode).Success?
    ensures data == members + ([0] + DecodeCompoundMembers(data, mode).value.rest)
    decreases |data|, 0, 0
  {
    assert data == [data[0]] + data[1..];
    if data[0] == 0 {
      members := [];
      assert data == [] + ([0] + data[1..]);
    } else {
      var kind := LookupClass(data[0]).value;
      var member := DecodeTag(data[1..], kind, true, mode).value;
      var first := DecodeTagPrefix(data[1..], kind, true, mode);
      var others := DecodeCompoundMembersPrefix(member.rest, mode);
      var end := [0] + DecodeCompoundMembers(data, mode).value.rest;
      Concat(data[1..], first, member.rest, others, end);
      Concat(data, [data[0]], data[1..], first + others, end);
      members := [data[0]] + (first + others);
    }
  }

  // ---------------------------------------------------------------------
  // The root and the List header

  /**
   * `read` accepts only streams starting with octet 10 and returns a well
   * formed named Compound.
   */
  lemma ReadShape(data: seq<byte>, mode: Mode)
    requires Read(data, mode).Success?
    ensures |data| > 0 && data[0] == TypeNumber(Compound)
    ensures var root := Read(data, mode).value;
      root.named && KindOf(root.payload) == Compound && WellFormed(root)
  {
    DecodeTagShape(data[1..], Compound, true, mode);
  }

  /**
   * A List payload: the element type octet, a 4-octet signed count, and as
   * many items as the count says; with a count of zero or less, exactly
   * those five octets are read.
   */
  lemma ListHeader(data: seq<byte>, named: bool, mode: Mode)
    requires DecodePayload(data, List, named, mode).Success?
    ensures var p := DecodePayload(data, List, named, mode).value;
      |data| >= 5 && p.value.ListVal? && p.value.elemType == data[0] &&
      p.value.number == UnpackSigned(data[1..5]) &&
      |p.value.items| == ItemCount(p.value.number) &&
      (p.value.number <= 0 ==> p.value.items == [] && p.rest == data[5..])
  {
    var elemType := ReadOctet(data).value;
    var count := ReadFixed(elemType.rest, 4).value;
    assert count.value == data[1..5] && count.rest == data[5..];
  }
}
