# NBT tag codec of ParseMinecraftAlpha.py, modelled and proved in Dafny

`ParseMinecraftAlpha.py` reads and writes the NBT files of Minecraft Alpha. The format is a tree of tags in eleven kinds: End, Byte, Short, Int, Long, Float, Double, ByteArray, String, List and Compound.
- Each kind's type number is its index in `tag_types`.
- A Compound's members carry their type octet and name, and a 0 octet ends the Compound.
- A List stores its element type number and a signed count, then that many unnamed items.

`MinecraftGeneralUtils.py` searches such trees.

This project models the following in Dafny.

**The tag tree** (`Tags`)
- The kinds and the type-number registry.
- The per-kind payloads, as one value datatype.
- `getName` and `getMembers`.

**The decoder**
- `Codec` has one function per step: `readString`, `readByteArray`, `readTag`, each class's `parse`, both `readMembers`, and the root check of `read`. Each takes the octets not yet read and returns the value together with the octets left after it.
- `Parser` has the same steps as imperative methods over a `ByteStream` object with a cursor:
  - a `for` loop for the List's counted run;
  - a `while` loop for the Compound's loop on the type octet.
  
  Each method is proved to agree with the `Codec` function it implements.

**The encoder** (`toBytes`)
- `Codec.EncodeTag` and friends, as functions.
- `Parser.ToBytes` and `Parser.MembersBytes`, as methods with the `extend` loop, proved equal to those functions.
- Where `pack` raises on a length that does not fit its field, the encoder gives `None`.

**The objects that change in place** (`Objects`)
- `TagCompound.add` and `remove`, on a class holding the member list.
- The `parent` chain that `getLevel` walks.

**The search** (`Search`)
- `findAll`, as a method proved equal to a pre-order filter of the descendants.
- `find` as written, and the direct-child lookup its comment promises.

`Mode` selects between the code as written (`AsWritten`) and the evidently intended behaviour (`Intended`). The two differ in two places:
- the length written before a name;
- whether an unnamed String's payload is read.

Both are listed under Findings. The main theorem is the round trip. `RoundTrip.RootRoundTrip` proves that `read` of what `write` produced is the tree that was written:
- in the Intended mode, for every well-formed named Compound root whose lengths fit their fields;
- as written, only for trees with ASCII names and no unnamed Strings.

`Shapes` proves what the decoder guarantees about anything it accepts. `Layout` proves when the encoder succeeds and how its output is laid out.

The byte streams are plain octet sequences. gzip and files are not modelled: `read` and `write` start at the decompressed octets.

## Model

| member | source | states |
|---|---|---|
| Tags.TypeNumber | ParseMinecraftAlpha.py:13-16 | the type number written for a kind is that kind's index in the registry |
| Tags.ClassFor | ParseMinecraftAlpha.py:50-53 | `readTag` finds a class exactly for the numbers 1 to 10; 0 names TagEnd, which has no class, and larger numbers fall outside `tag_types` |
| Tags.RegistryBijection | ParseMinecraftAlpha.py:13-16 | looking up a kind's type number gives back that kind, and a valid number's kind has that number |
| Tags.GetName | ParseMinecraftAlpha.py:63-67 | the name is present exactly for a named tag, and is its name |
| Tags.KindOf | ParseMinecraftAlpha.py:13-16 | every payload belongs to one of the ten tag classes, never to TagEnd |
| Tags.ItemCount | ParseMinecraftAlpha.py:232 | `range(0, number)` runs `number` times exactly when the stored count is positive, and not at all otherwise |
| Tags.WellFormed | ParseMinecraftAlpha.py:230-236 | the definition of the shape every decoded tree has: an unnamed tag has the empty name, a List holds ItemCount(number) unnamed items of its element kind, and a Compound holds named members; `Shapes.DecodeTagShape` proves the decoder yields only such trees |
| Tags.GetMembers | ParseMinecraftAlpha.py:69-70 | a List gives its items and a Compound its members (the overrides at lines 238-239 and 286-287); every other kind gives none |
| Bytes.ToBE | ParseMinecraftAlpha.py:39 | big-endian packing (`pack(">H", n)`) of a value below 256^n gives exactly n octets; `Bytes.FromToBE` and `Bytes.ToFromBE` prove it inverse to FromBE |
| Bytes.FromBE | ParseMinecraftAlpha.py:45 | the value unpacked big-endian (`unpack(">H", …)`) from n octets is always below 256^n |
| Bytes.FromToBE | ParseMinecraftAlpha.py:39 | reading an n-octet big-endian field gives back any value below 256^n that was packed into it |
| Bytes.ToFromBE | ParseMinecraftAlpha.py:45 | packing the value read from any n octets gives those octets back |
| Bytes.PackSigned | ParseMinecraftAlpha.py:103 | two's-complement packing of an in-range value gives exactly n octets |
| Bytes.UnpackSigned | ParseMinecraftAlpha.py:98 | the value unpacked from n octets always lies in the signed n-octet range |
| Bytes.SignedRoundTrip | ParseMinecraftAlpha.py:96-104 | unpacking the octets `pack(">h"/">i"/">q", v)` writes gives v back, for every in-range v |
| Bytes.SignedRoundTripBytes | ParseMinecraftAlpha.py:111-119 | packing what was unpacked from any n octets gives those octets back |
| Utf8.Encode | ParseMinecraftAlpha.py:40 | `str.encode("utf-8")` takes at least one and at most four octets per character; `Utf8.DecodeEncode` proves strict decoding inverts it |
| Utf8.Decode | ParseMinecraftAlpha.py:46 | strict `bytes.decode("utf-8")`: a successful decoding has no more characters than octets (the definition gives None, Python's UnicodeDecodeError, for malformed, overlong, surrogate, out-of-range or cut-off sequences) |
| Utf8.EncodeChar | ParseMinecraftAlpha.py:40 | a character encodes to 1 to 4 octets, and to one octet exactly when it is ASCII |
| Utf8.DecodeChar | ParseMinecraftAlpha.py:46 | a decoded character consumes between 1 octet and all remaining octets |
| Utf8.DecodeEncodedChar | ParseMinecraftAlpha.py:46 | decoding the octets of any encoded character, whatever follows them, yields that character and consumes exactly its octets |
| Utf8.DecodeEncode | ParseMinecraftAlpha.py:202 | strict UTF-8 decoding of `s.encode("utf-8")` gives s back, for every string |
| Utf8.EncodedLength | ParseMinecraftAlpha.py:38-40 | the encoding is never shorter than the string, and has the same length exactly when every character is ASCII |
| Codec.Chunk | ParseMinecraftAlpha.py:179 | `file.read(n)` on the gzip stream, for n of -1 or more: the next n octets when there are that many, and otherwise (n = -1, or fewer octets left) everything left; the octets read and the octets left make up the stream |
| Codec.ReadOctet | ParseMinecraftAlpha.py:83 | `ord(file.read(1))` succeeds exactly on a non-empty stream, taking its first octet; otherwise it is a short read |
| Codec.ReadFixed | ParseMinecraftAlpha.py:98 | `unpack` of n octets succeeds exactly when n octets are left, takes them and leaves the rest; otherwise it is a short read |
| Codec.ReadString | ParseMinecraftAlpha.py:43-48 | an unnamed tag's `readString` is "" and reads nothing; for a named tag, a success leaves no more octets than it was given |
| Codec.ReadByteArray | ParseMinecraftAlpha.py:177-179 | fewer than 4 length octets is a short read; a stored length below -1 fails with NegativeLength (the ValueError of the gzip reader's `read`); otherwise payload and rest make up everything after the length field, and a length that fits in what is left gives exactly that many octets |
| Codec.LookupClass | ParseMinecraftAlpha.py:50-53 | the lookup fails with NoClassFor(n) exactly when no class exists for n, and otherwise gives that class's kind |
| Codec.DecodeTag | ParseMinecraftAlpha.py:50-53 | the tag `readTag(n, named)` creates and parses keeps the `named` flag and is of the class asked for |
| Codec.DecodePayload | ParseMinecraftAlpha.py:223-227 | the payload parsed is of the kind asked for, and the stream only shrinks |
| Codec.DecodeLeaf | ParseMinecraftAlpha.py:81-198 | each leaf class's `parse` yields a payload of its own kind |
| Codec.DecodeListItems | ParseMinecraftAlpha.py:230-236 | `TagList.readMembers` yields exactly `count` items, and fails with NoClassFor when the element type has no class and the count is positive |
| Codec.DecodeCompoundMembers | ParseMinecraftAlpha.py:276-284 | `TagCompound.readMembers` always consumes at least its end octet; it fails on an empty stream and on a type octet with no class |
| Codec.Read | ParseMinecraftAlpha.py:296-305 | `read` fails on an empty stream and on a first octet other than 10, and otherwise gives a named Compound |
| Codec.PackU16 | ParseMinecraftAlpha.py:39 | `pack(">H", n)` succeeds exactly when n < 65536, giving 2 octets that read back as n |
| Codec.PackLength32 | ParseMinecraftAlpha.py:183 | `pack(">i", len)` succeeds exactly when the length fits 31 bits, giving 4 octets that read back as the length |
| Codec.NameLength | ParseMinecraftAlpha.py:38 | the name length the encoder writes is never more than the name's UTF-8 length, and equals it exactly when the name is ASCII or the mode is Intended: as written, it is too small for every non-ASCII name |
| Codec.EncodeName | ParseMinecraftAlpha.py:37-40 | an unnamed tag writes no name octets; a named one succeeds exactly when its name length fits 16 bits, and then writes 2 octets holding that length followed by the UTF-8 name |
| Codec.EncodeTag | ParseMinecraftAlpha.py:33-41 | a successful `toBytes` is never empty and, with `with_type_byte`, starts with the class's type number; `Layout.HeaderLayout` gives its full layout and `RoundTrip.DecodeEncodedTag` its inverse |
| Codec.EncodePayload | ParseMinecraftAlpha.py:86-294 | each override's payload part: the fixed-width kinds always encode, every payload takes at least one octet, and a Compound's ends with its 0 octet; `RoundTrip.DecodeEncodedPayload` gives its inverse |
| Codec.EncodeSeq | ParseMinecraftAlpha.py:245-246 | the `bytes.extend(member.toBytes(...))` loops (also lines 291-292): no members write nothing, and each member adds at least one octet |
| Codec.Write | ParseMinecraftAlpha.py:307-310 | what `write` puts in the file starts with the root's type number; `RoundTrip.RootRoundTrip` proves `read` inverts it |
| Layout.LengthsFit | ParseMinecraftAlpha.py:33-41 | the definition of when every length field fits, throughout the tree: names (as NameLength counts them) and String payloads below 65536, ByteArrays below 2^31; `Layout.EncodeTagSucceeds` proves `toBytes` succeeds exactly then |
| Layout.EncodeTagSucceeds | ParseMinecraftAlpha.py:33-41 | `toBytes` succeeds exactly when every name, String and ByteArray length in the tree fits its field |
| Layout.EncodePayloadSucceeds | ParseMinecraftAlpha.py:181-205 | a payload's `toBytes` succeeds exactly when its own lengths and those of everything below it fit |
| Layout.EncodeSeqSucceeds | ParseMinecraftAlpha.py:245-246 | the members' encoding loop succeeds exactly when every member's lengths fit |
| Layout.HeaderLayout | ParseMinecraftAlpha.py:33-41 | the header of an encoded tag is its type number's single octet (only with `with_type_byte`); then, for a named tag only, a 2-octet big-endian field holding the name length, and the UTF-8 name; nothing for an unnamed tag |
| Layout.ListLayout | ParseMinecraftAlpha.py:241-247 | a List payload is its element type octet, its stored `number` as 4 signed big-endian octets, then the items encoded without type octets |
| Layout.CompoundLayout | ParseMinecraftAlpha.py:289-294 | a Compound payload is its members, each starting with its type octet, followed by one 0 octet |
| Layout.ByteArrayLayout | ParseMinecraftAlpha.py:181-185 | a ByteArray payload is its length as 4 signed big-endian octets, then the octets verbatim |
| Layout.StringLayout | ParseMinecraftAlpha.py:200-205 | a String payload is the length of its UTF-8 encoding in 2 big-endian octets, then that encoding |
| Layout.FixedLayout | ParseMinecraftAlpha.py:86-164 | Byte is one octet; Short, Int and Long are 2, 4 and 8 signed big-endian octets that unpack to the value; Float and Double are their raw 4 and 8 octets |
| Shapes.DecodeTagShape | ParseMinecraftAlpha.py:43-48 | every tag the decoder accepts is well formed; in particular an unnamed one has the empty name |
| Shapes.DecodePayloadShape | ParseMinecraftAlpha.py:223-227 | every decoded payload is well formed: List items are as many as the count, unnamed and of the element kind (when the count is at most 0, there are none), and Compound members are named |
| Shapes.DecodeListItemsShape | ParseMinecraftAlpha.py:230-236 | every item `TagList.readMembers` reads is unnamed, of the element type and well formed |
| Shapes.DecodeCompoundMembersShape | ParseMinecraftAlpha.py:276-284 | every member `TagCompound.readMembers` reads is named and well formed |
| Shapes.ReadStringPrefix | ParseMinecraftAlpha.py:43-48 | `readString` consumes a prefix of the stream; for an unnamed tag that prefix is empty |
| Shapes.DecodeLeafPrefix | ParseMinecraftAlpha.py:81-198 | each leaf's `parse` consumes a prefix of the stream and leaves the rest untouched |
| Shapes.DecodeTagPrefix | ParseMinecraftAlpha.py:81-83 | a tag's `parse` consumes a prefix of the stream and leaves the rest untouched |
| Shapes.DecodePayloadPrefix | ParseMinecraftAlpha.py:223-227 | a payload's `parse` consumes a prefix of the stream; a Compound's prefix ends with its 0 octet |
| Shapes.DecodeListItemsPrefix | ParseMinecraftAlpha.py:230-236 | the List's items consume a prefix of the stream |
| Shapes.DecodeCompoundMembersPrefix | ParseMinecraftAlpha.py:276-284 | the octets a successful `TagCompound.readMembers` consumes end with a 0 octet (the type octet that ends its loop), and what it leaves unread is exactly everything after that 0 |
| Shapes.ReadShape | ParseMinecraftAlpha.py:296-305 | a stream `read` accepts starts with 10, and the root it returns is a well-formed named Compound |
| Shapes.ListHeader | ParseMinecraftAlpha.py:223-227 | a List payload takes its element type from the first octet and its count from the next 4 signed octets, and has as many items as the count asks for; with a count of 0 or less it has no items and reads exactly 5 octets |
| RoundTrip.ReadEncodedString | ParseMinecraftAlpha.py:43-48 | `readString` of a 2-octet UTF-8 length followed by the encoding gives the string back and leaves what follows |
| RoundTrip.DecodeEncodedName | ParseMinecraftAlpha.py:37-48 | for a well-formed tag (as written, also only ASCII names and no unnamed String anywhere in it: `RoundTrip.Carried`), reading back the name part of `toBytes` gives the tag's name and leaves what follows |
| RoundTrip.DecodeEncodedTag | ParseMinecraftAlpha.py:33-41 | for a well-formed tag (as written, also only ASCII names and no unnamed String anywhere in it: `RoundTrip.Carried`), `parse` of what `toBytes(False)` wrote gives the tag back, whatever follows it in the stream |
| RoundTrip.DecodeEncodedPayload | ParseMinecraftAlpha.py:86-294 | for a well-formed tag (as written, also only ASCII names and no unnamed String anywhere in it: `RoundTrip.Carried`), each class's payload `parse` reads back its `toBytes` payload and leaves what follows |
| RoundTrip.DecodeEncodedLeaf | ParseMinecraftAlpha.py:81-205 | for a well-formed leaf tag (as written, also only ASCII names and no unnamed String anywhere in it: `RoundTrip.Carried`), its payload reads back as written and leaves what follows |
| RoundTrip.DecodeEncodedFixed | ParseMinecraftAlpha.py:81-164 | Byte, Short, Int, Long, Float and Double payloads read back as written |
| RoundTrip.DecodeEncodedByteArray | ParseMinecraftAlpha.py:172-185 | a ByteArray reads back as written |
| RoundTrip.DecodeEncodedList | ParseMinecraftAlpha.py:223-247 | for a well-formed List, whose stored count matches its items (as written, also only ASCII names and no unnamed String anywhere in it: `RoundTrip.Carried`), the List reads back as written |
| RoundTrip.DecodeEncodedCompound | ParseMinecraftAlpha.py:271-294 | for a well-formed Compound (as written, also only ASCII names and no unnamed String anywhere in it: `RoundTrip.Carried`), the Compound reads back as written, and reading stops right after its 0 octet |
| RoundTrip.DecodeEncodedItems | ParseMinecraftAlpha.py:230-236 | for items that are unnamed, of the element type and well formed (as written, also only ASCII names and no unnamed String anywhere in them: `RoundTrip.ItemsCarried`), `readMembers(count)` of what the List's loop of `toBytes(False)` wrote gives the items back |
| RoundTrip.DecodeEncodedMembers | ParseMinecraftAlpha.py:276-284 | for members that are named and well formed (as written, also only ASCII names and no unnamed String anywhere in them: `RoundTrip.MembersCarried`), `TagCompound.readMembers` of what the Compound's loop wrote, and the 0 after it, gives the members back |
| RoundTrip.RootRoundTrip | ParseMinecraftAlpha.py:296-310 | `read` of what `write` produced for a named Compound root is that root, whenever the encoder succeeds (only ASCII names and no unnamed Strings as written; every well-formed tree when Intended) |
| Parser.ByteStream.Read | ParseMinecraftAlpha.py:179 | `file.read(n)`, for n of -1 or more (below that the reader raises, and `Parser.ReadByteArray` fails first), advances the cursor and returns what `Codec.Chunk` specifies |
| Parser.ReadOctet | ParseMinecraftAlpha.py:83 | agrees with `Codec.ReadOctet` on the value or error and on the octets left |
| Parser.ReadFixed | ParseMinecraftAlpha.py:98 | agrees with `Codec.ReadFixed` |
| Parser.ReadString | ParseMinecraftAlpha.py:43-48 | agrees with `Codec.ReadString` |
| Parser.ReadByteArray | ParseMinecraftAlpha.py:177-179 | agrees with `Codec.ReadByteArray` |
| Parser.Parse | ParseMinecraftAlpha.py:81-84 | each class's `parse` (name, then payload) agrees with `Codec.DecodeTag` |
| Parser.ParsePayload | ParseMinecraftAlpha.py:223-227 | the payload part of `parse`, dispatched on the class, agrees with `Codec.DecodePayload` |
| Parser.ParseLeaf | ParseMinecraftAlpha.py:81-198 | the leaf classes' payload `parse` agrees with `Codec.DecodeLeaf` |
| Parser.ReadListMembers | ParseMinecraftAlpha.py:230-236 | the `for` loop reading `number` unnamed tags agrees with `Codec.DecodeListItems` |
| Parser.MembersLoopStep | ParseMinecraftAlpha.py:279-283 | one turn of the Compound loop: a member of type n, then the next type octet, moves one member from the remaining reads to the members read so far |
| Parser.ReadCompoundMembers | ParseMinecraftAlpha.py:276-284 | the `while tag_number != 0` loop agrees with `Codec.DecodeCompoundMembers` |
| Parser.Read | ParseMinecraftAlpha.py:296-305 | the root check and the Compound's `parse` agree with `Codec.Read` |
| Parser.ToBytes | ParseMinecraftAlpha.py:33-41 | the base `toBytes` and each override's appends give exactly `Codec.EncodeTag` |
| Parser.PayloadBytes | ParseMinecraftAlpha.py:86-294 | each override's payload appends give exactly `Codec.EncodePayload` |
| Parser.MembersBytes | ParseMinecraftAlpha.py:245-246 | the `bytes.extend(member.toBytes(...))` loop gives exactly `Codec.EncodeSeq` |
| Parser.Write | ParseMinecraftAlpha.py:307-310 | `write` emits the root's `toBytes()`, `Codec.Write` |
| Objects.RemoveFirst | ParseMinecraftAlpha.py:261 | `list.remove(x)` on the member list, as a value: removes at most one element; the lemmas after it say which one, and when |
| Objects.FirstOf | ParseMinecraftAlpha.py:261 | the index of the first member equal to x: it holds x, and no earlier member is x |
| Objects.RemoveFirstAt | ParseMinecraftAlpha.py:261 | when the first x is at index i, `list.remove(x)` cuts out exactly that element |
| Objects.RemoveFirstAbsent | ParseMinecraftAlpha.py:261 | removing an absent member changes nothing |
| Objects.RemoveFirstCounts | ParseMinecraftAlpha.py:261 | removal takes away exactly one occurrence of x when there is one: the multiset loses x once, and the length drops by one exactly when x was present |
| Objects.RemoveFirstKeepsOrder | ParseMinecraftAlpha.py:261 | when x is present there is an index of its first occurrence such that the result is the members before it followed by the members after it |
| Objects.CompoundTag.AsTag | ParseMinecraftAlpha.py:249-255 | the object stands for a Compound tag with its `named` flag, name and members, and `getMembers` gives those members |
| Objects.CompoundTag.Add | ParseMinecraftAlpha.py:257-258 | `add` leaves the old members in order, followed by the given ones; name and flag are unchanged |
| Objects.CompoundTag.Remove | ParseMinecraftAlpha.py:260-261 | `remove` succeeds exactly when x is a member, and the member list becomes the old list without its first x; name and flag are unchanged |
| Objects.TagNode.Ancestors | ParseMinecraftAlpha.py:18-20 | the chain of parents, nearest first: empty for the root, and starting with the parent otherwise |
| Objects.TagNode.GetLevel | ParseMinecraftAlpha.py:55-61 | `getLevel` returns the number of tags above this one on the parent chain |
| Search.Matches | MinecraftGeneralUtils.py:25-26 | `member_name is not None and member_name == name` holds exactly for a named tag with that name |
| Search.Descendants | MinecraftGeneralUtils.py:21-29 | the tags `findAll` visits below a tag, in pre-order: one for each tag of its tree except the tag itself |
| Search.DescendantsOf | MinecraftGeneralUtils.py:24-28 | the members in order, each followed by its own descendants: as many tags as the members' trees hold together |
| Search.Filter | MinecraftGeneralUtils.py:26-27 | keeping the tags with the name never yields more tags than there were |
| Search.FilterAppend | MinecraftGeneralUtils.py:24-28 | filtering distributes over concatenation, so results of successive members follow member order |
| Search.FilterCount | MinecraftGeneralUtils.py:26-27 | filtering keeps every tag with the name as often as it occurs, and no other tag |
| Search.DescendantsOfSnoc | MinecraftGeneralUtils.py:24-28 | one more member adds that member and then its own descendants at the end of the pre-order |
| Search.DescendantsOfSplit | MinecraftGeneralUtils.py:24-28 | the pre-order of the members splits at any member into before, the member with its descendants, and after |
| Search.DescendantsSmaller | MinecraftGeneralUtils.py:21-29 | every descendant is a strictly smaller tree, so a tag is never its own descendant |
| Search.DescendantsOfSmaller | MinecraftGeneralUtils.py:24-28 | everything in the members' pre-order is no larger than the members together |
| Search.FindAll | MinecraftGeneralUtils.py:21-29 | the method's result is exactly the descendants with the name, in pre-order |
| Search.FindAllExactly | MinecraftGeneralUtils.py:17-29 | every result is a named descendant with that name; the tag itself is never included; each matching descendant appears as often as it occurs (so the length is the number of matching descendants) |
| Search.FindAllNone | MinecraftGeneralUtils.py:17-20 | with no descendant of that name (in particular with no members) the result is empty |
| Search.FindAllOrder | MinecraftGeneralUtils.py:24-28 | around member i: the matches among the earlier members come first, then member i if it matches, then the matches inside it, then those of later members |
| Search.Find | MinecraftGeneralUtils.py:7-15 | as written, `find` fails (NameError) exactly when some direct child has the name, and otherwise returns None |
| Search.FindChild | MinecraftGeneralUtils.py:3-6 | the intended `find` returns None exactly when no direct child has the name, and otherwise returns the first direct child that has it |
| Defects.NonAsciiNameBreaksRead | ParseMinecraftAlpha.py:38-40 | as written, a root named by one non-ASCII character is written whenever its members' lengths fit (`Layout.LengthsFit`), and then fails to read back (invalid UTF-8) |
| Defects.UnnamedStringLost | ParseMinecraftAlpha.py:195-198 | as written, a well-formed root holding a List (ASCII name) with one unnamed String (under 256 octets) is written, but reads back with that String emptied, a different tree when the String is not empty |
| Defects.IntendedRoundTrip | ParseMinecraftAlpha.py:296-310 | with both defects corrected, every well-formed named Compound root whose lengths fit is written, and reads back as itself |

## Left out

- gzip and files: `read` and `write` work on the decompressed octets, and opening, closing and writing files are not modelled. The `__main__` command line is not modelled either.
- `__str__` and `debugPrint`, which are diagnostic output only. `TagList.__str__` fails on an empty list because it reads `members[0]`; that is not modelled.
- Float and Double: the IEEE-754 value is not modelled; the payload is its raw 4 or 8 octets.
- `pack(">c", chr(n))`, for the type octets, Byte payloads, List element types and the Compound end octet, is modelled as writing the single octet n. Python 3's `pack` rejects a `str` argument there.
- `toBytes` returns a list of byte strings; the model uses their concatenation, which is what `write` puts in the file.
- `BadFileError` is not a defined name, so a bad first octet raises NameError rather than BadFileException. The model keeps only that `read` fails, as `NotCompoundRoot(first)`.
- Short, Int and Long payloads are typed with their signed ranges, so `pack`'s range errors for them cannot arise in the model. Only length fields can make the encoder fail.
- Decoding errors are plain values of `DecodeError`. The model does not tell Python's exception types apart, for example `struct.error` from the `TypeError` of `ord(b"")`.
- Codec.Chunk: follows the gzip reader of Python 3.5 and later, whose `read(n)` raises ValueError for every n below -1 (modelled by `NegativeLength` in `Codec.ReadByteArray` and `Parser.ReadByteArray`); Python 3.4 and earlier read to the end for any negative n.
- Parser.Parse: returns the decoded tag as a value, instead of assigning the `name`, `payload`, `number` and `members` fields of a fresh object with a `parent` link.
- Objects.TagNode.GetLevel: models only the `parent` chain of a tag object, not the tag's contents.
- Objects.CompoundTag.Remove: compares members by value. The tag classes define no `__eq__`, so Python's `list.remove` compares by identity.
- Objects.CompoundTag.Remove: returns false and changes nothing where `list.remove` raises ValueError.
- Strings are sequences of Unicode scalar values: Python strings holding lone surrogates (which `encode("utf-8")` rejects) are not modelled.

## Findings

| source | as written | input that shows it | evidently intended | confidence | as-written member | corrected member |
|---|---|---|---|---|---|---|
| ParseMinecraftAlpha.py:38 | the name length is written as `len(self.name)`, a count of characters, but the reader takes that many octets of UTF-8 | a root named "é" (any single non-ASCII character): length 1 is written before 2 octets, and reading takes only the first, which is invalid UTF-8 | write the length of the UTF-8 encoding, as `TagString.toBytes` does at line 203 | not executed | Defects.NonAsciiNameBreaksRead | Defects.IntendedRoundTrip |
| ParseMinecraftAlpha.py:197 | `TagString.parse` reads its payload with `readString`, which returns "" without reading when the tag is unnamed, as every List item is | a root holding a List "l" of one unnamed String "a": the item's octets 0, 1, 'a' are written, then read back as the String "", and the 0 ends the root early | always read the 2-octet length and the UTF-8 octets of a String payload | not executed | Defects.UnnamedStringLost | Defects.IntendedRoundTrip |
| MinecraftGeneralUtils.py:13 | on a match, `find` appends to `return_list`, which is not defined in its scope | any tag with a direct child of that name: NameError | return the first direct child with the name, None if none has it | not executed | Search.Find | Search.FindChild |
