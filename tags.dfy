/**
 * The tag tree: the eleven tag kinds and their registry of type numbers
 * (`Tag.tag_types` in ParseMinecraftAlpha.py), the per-kind payloads, and
 * the accessors `getName` and `getMembers`.
 */
module Tags {
  import opened Wrappers
  import opened Bytes

  /** The tag kinds, in registry order: a kind's type number is its index. */
  datatype Kind = End | Byte | Short | Int | Long | Float | Double | ByteArray | String | List | Compound

  /** `tag_types`: the registry, indexed by type number. */
  const Registry: seq<Kind> := [End, Byte, Short, Int, Long, Float, Double, ByteArray, String, List, Compound]

  /** `tag_types.index(...)`: the type number written for a kind. */
  function TypeNumber(k: Kind): (n: byte)
    ensures n < |Registry| && Registry[n] == k
  {
    match k
    case End => 0
    case Byte => 1
    case Short => 2
    case Int => 3
    case Long => 4
    case Float => 5
    case Double => 6
    case ByteArray => 7
    case String => 8
    case List => 9
    case Compound => 10
  }

  /**
   * `readTag`: the kind whose class the decoder instantiates for a type
   * number. Numbers past the registry fail the `tag_types` lookup, and 0
   * names "TagEnd", for which no class is defined, so it fails as well.
   */
  function ClassFor(n: byte): (r: Option<Kind>)
    ensures r.Some? <==> 1 <= n < |Registry|
    ensures r.Some? ==> r.value == Registry[n] && r.value != End
  {
    if 1 <= n < |Registry| then Some(Registry[n]) else None
  }

  /** The registry is a bijection between kinds and the numbers 0..10. */
  lemma RegistryBijection(k: Kind, n: byte)
    ensures 1 <= n < |Registry| ==> TypeNumber(ClassFor(n).value) == n
    ensures k != End ==> ClassFor(TypeNumber(k)) == Some(k)
  {
  }

  type i16 = v: int | -0x8000 <= v < 0x8000
  type i32 = v: int | -0x8000_0000 <= v < 0x8000_0000
  type i64 = v: int | -0x8000_0000_0000_0000 <= v < 0x8000_0000_0000_0000
  type Bytes4 = s: seq<byte> | |s| == 4 witness [0, 0, 0, 0]
  type Bytes8 = s: seq<byte> | |s| == 8 witness [0, 0, 0, 0, 0, 0, 0, 0]

  /**
   * What a tag carries, per kind. Float and Double payloads are their raw
   * IEEE-754 octets. A List keeps its element type number and the count it
   * stores (`number`) apart from its items.
   */
  datatype Payload =
    | ByteVal(b: byte)
    | ShortVal(s: i16)
    | IntVal(i: i32)
    | LongVal(l: i64)
    | FloatBits(f: Bytes4)
    | DoubleBits(d: Bytes8)
    | ByteArrayVal(bytes: seq<byte>)
    | StringVal(text: string)
    | ListVal(elemType: byte, number: i32, items: seq<Tag>)
    | CompoundVal(members: seq<Tag>)

  /** One node of the tree. An unnamed tag (a List item) carries no name on the wire. */
  datatype Tag = Tag(named: bool, name: string, payload: Payload)

  /** The kind of a tag, that is, which Python class it is an instance of. */
  function KindOf(p: Payload): (k: Kind)
    ensures k != End
  {
    match p
    case ByteVal(_) => Byte
    case ShortVal(_) => Short
    case IntVal(_) => Int
    case LongVal(_) => Long
    case FloatBits(_) => Float
    case DoubleBits(_) => Double
    case ByteArrayVal(_) => ByteArray
    case StringVal(_) => String
    case ListVal(_, _, _) => List
    case CompoundVal(_) => Compound
  }

  /** `getName`: the name of a named tag, None for an unnamed one. */
  function GetName(t: Tag): (r: Option<string>)
    ensures r.Some? <==> t.named
    ensures r.Some? ==> r.value == t.name
  {
    if t.named then Some(t.name) else None
  }

  /** `getMembers`: the items of a List, the members of a Compound, nothing otherwise. */
  function GetMembers(t: Tag): (r: seq<Tag>)
    ensures t.payload.ListVal? ==> r == t.payload.items
    ensures t.payload.CompoundVal? ==> r == t.payload.members
    ensures !t.payload.ListVal? && !t.payload.CompoundVal? ==> r == []
  {
    match t.payload
    case ListVal(_, _, items) => items
    case CompoundVal(members) => members
    case _ => []
  }

  /** The number of items a List with stored count n reads: `range(0, n)`. */
  function ItemCount(n: int): (count: nat)
    ensures count == 0 <==> n <= 0
    ensures count > 0 ==> count == n
  {
    if n < 0 then 0 else n
  }

  /**
   * The shape every decoded tree has: an unnamed tag has the empty name, a
   * List holds as many unnamed items of its element kind as its stored count
   * asks for, and a Compound holds named members.
   */
  predicate WellFormed(t: Tag)
    decreases t, 1
  {
    (!t.named ==> t.name == "") && WellFormedPayload(t.payload)
  }

  predicate WellFormedPayload(p: Payload)
    decreases p, 0
  {
    match p
    case ListVal(elemType, number, items) =>
      |items| == ItemCount(number) &&
      forall i :: 0 <= i < |items| ==>
        !items[i].named && TypeNumber(KindOf(items[i].payload)) == elemType && WellFormed(items[i])
    case CompoundVal(members) =>
      forall i :: 0 <= i < |members| ==> members[i].named && WellFormed(members[i])
    case _ => true
  }
}
