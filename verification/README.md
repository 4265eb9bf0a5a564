# nbtedit core in Dafny

This project models the core of `nbt_editor.cpp`, a terminal editor for NBT
(Named Binary Tag) trees. The core has three parts:

- **The primitive codec of `NBTFile`.** `readByte`/`writeByte`,
  `readShort`/`writeShort`, `readInt`/`writeInt` and `readLong`/`writeLong`
  move fixed-width integers in network (big-endian) byte order.
  `readString`/`writeString` write a 16-bit length prefix followed by the
  raw bytes.
- **The tag-tree data model.** It covers `TagType`, `NBTValue` and `NBTTag`,
  plus the pre-order listing that `flattenTags`/`refreshTagList` build for
  the editor.
- **The editing operations of `NBTEditor`.** These are
  `NBTTag::setValueFromString`, the kind gate and parse-failure handling of
  `editValue`, `addTag` and `deleteTag`.

Files, one module each:

| file | module | contents |
|---|---|---|
| `wrappers.dfy` | `Wrappers` | `Option` |
| `seqs.dfy` | `Seqs` | generic facts about sequence slicing and concatenation |
| `binary.dfy` | `Binary` | bytes; `int8` to `int64`; the big-endian layout of a number; two's complement; the narrowing `static_cast` (`Wrap`) |
| `codec.dfy` | `Codec` | the readers and writers, their round trips, and the two string-length findings |
| `decimal.dfy` | `Decimal` | the parse `std::stoi`/`std::stoll` perform, and the text `std::to_string` produces |
| `tags.dfy` | `Tags` | `TagType`, `Value` (NBTValue), `Tag` (NBTTag), and a compound as a `std::map` |
| `tree.dfy` | `Tree` | node count, `flattenTags`, and addressing, replacing and validating a node by its row |
| `editor.dfy` | `Editor` | `setValueFromString`, `editValue`, `addTag`, `deleteTag` over the editor state |

Modelling choices:

- **Streams.** A stream is a `seq<byte>` (bytes are the integers 0 to 255).
  A write returns the bytes it appends. A read takes the stream and an
  offset and returns the value with the offset after it. The precondition
  of a read is that enough bytes remain.
- **Byte order.** The source swaps bytes by hand and relies on a
  little-endian host. The model states the on-wire effect: the most
  significant byte comes first.
- **Conversions.** Shifts and narrowing conversions follow C++20 (two's
  complement, modular).
- **Compounds are `std::map`s.** A compound is a sequence of
  `Entry(key, tag)` with strictly increasing keys (`Tags.Sorted`, the map
  invariant that `Tree.Valid` carries through the tree). The map key and
  the child's own `name` are separate data.
- **Strings are bytes.** A `std::string` is a `cstring`, a sequence of
  `cchar`: characters 0 to 255, one per C `char`. This covers tag names,
  map keys, string payloads and the line typed into `editValue`, so a
  multi-byte UTF-8 character is several `cchar`s, and the 255-byte limit
  of the input buffer counts bytes. Key order compares them as
  `unsigned char`, as `std::string` does. The stream codec (`Codec`)
  works on the same bytes as `seq<byte>`, one `byte` per `cchar` with the
  same value; the file I/O that would pass a name or payload between the
  two views is not modelled.
- **Owned values.** Shared pointers become owned values. Editing the
  selected node in place becomes rebuilding the path from the root to the
  node's row (`Tree.UpdateAt`).
- **Editor state.** The state is `Editor(root, selected, modified)`.
  - `selected` is the row of `flatTagList` that `selectedTag` points at,
    and `None` is a null `selectedTag`.
  - addTag's `refreshTagList` keeps the selected compound on its row, and
    `Editor.AddTag` proves that.
- **Parameters for what the model cannot see.** These are:
  - the line `mvgetnstr` returns (`None` when it does not return `OK`);
  - `std::stof` and `std::stod`, as a `FloatSyntax` holding two partial
    functions to bit patterns.
- **`std::stoi` and `std::stoll`.** They are modelled as what they
  compute: `strtol`'s parse in base 10, then a range check.
  - The parse skips leading white space, takes an optional sign, then the
    longest run of digits, and ignores the rest.
  - The result is `None` (the exception) when there is no digit or the
    value leaves the target range.

The model follows the code as written, including where an NBT tool would usually behave differently:

- Compound children come out in ascending key order, not insertion order.
- A byte or short typed out of range is wrapped (`static_cast` of the int
  `std::stoi` gives), not rejected. An int or long out of range makes the
  parse throw.
- `deleteTag` renames the node with the prefix `"[DELETED] "`. It removes
  nothing.
- There is no tag decoder or encoder, because `readTag`/`writeTag` are
  declared but never defined. No recursive codec is modelled, and no tree
  round trip is claimed.
- String lengths are read as a signed 16-bit count, and the write keeps
  only the low 16 bits of the length (see Findings).

## Model

| member | source | states |
|---|---|---|
| Binary.FromBigEndianOfBigEndian | nbt_editor.cpp:276-299 | reading the n bytes the big-endian layout of u emits gives back u modulo 256^n |
| Binary.BigEndianOfFromBigEndian | nbt_editor.cpp:223-249 | any byte string, read as a number and laid out again at its width, reproduces itself |
| Binary.Wrap | nbt_editor.cpp:192-195 | the narrowing `static_cast<int8_t>`/`static_cast<int16_t>` gives a value of the narrow range, congruent to the input modulo 256^n, and equal to the input when it already fits |
| Binary.SignedOfUnsigned | nbt_editor.cpp:217-249 | the two's-complement pattern of a value that fits n bytes reads back as that value |
| Binary.UnsignedOfSigned | nbt_editor.cpp:217-249 | every n-byte pattern is the pattern of the signed value it denotes, and that value fits n bytes |
| Binary.UnsignedInjective | nbt_editor.cpp:217-249 | two values of one width with the same bit pattern are equal |
| Codec.WriteByte | nbt_editor.cpp:272-274 | writeByte emits exactly one byte, the 8-bit pattern of the value |
| Codec.ReadByte | nbt_editor.cpp:217-221 | readByte consumes one byte and returns the int8 whose pattern is that byte |
| Codec.ByteRoundTrip | nbt_editor.cpp:217-221 | a byte written at any position and read back there is the original value, and the offset advances by 1 |
| Codec.ByteBytesRoundTrip | nbt_editor.cpp:272-274 | any byte read and written again reproduces itself |
| Codec.WriteShort | nbt_editor.cpp:276-279 | writeShort emits two bytes, most significant first, forming the 16-bit pattern of the value |
| Codec.ReadShort | nbt_editor.cpp:223-227 | readShort consumes two bytes and returns the int16 whose pattern is those bytes taken most significant first |
| Codec.ShortRoundTrip | nbt_editor.cpp:223-227 | a short written and read back at the same offset is the original value, and the offset advances by 2 |
| Codec.ShortBytesRoundTrip | nbt_editor.cpp:276-279 | any two bytes read as a short and written back reproduce themselves |
| Codec.WriteInt | nbt_editor.cpp:281-287 | writeInt emits four bytes, most significant first, forming the 32-bit pattern of the value |
| Codec.ReadInt | nbt_editor.cpp:229-236 | readInt consumes four bytes and returns the int32 whose pattern is those bytes taken most significant first |
| Codec.IntRoundTrip | nbt_editor.cpp:229-236 | an int written and read back at the same offset is the original value, and the offset advances by 4 |
| Codec.IntBytesRoundTrip | nbt_editor.cpp:281-287 | any four bytes read as an int and written back reproduce themselves |
| Codec.WriteLong | nbt_editor.cpp:289-299 | writeLong emits eight bytes, most significant first, forming the 64-bit pattern of the value |
| Codec.ReadLong | nbt_editor.cpp:238-249 | readLong consumes eight bytes and returns the int64 whose pattern is those bytes taken most significant first |
| Codec.LongRoundTrip | nbt_editor.cpp:238-249 | a long written and read back at the same offset is the original value, and the offset advances by 8 |
| Codec.LongBytesRoundTrip | nbt_editor.cpp:289-299 | any eight bytes read as a long and written back reproduce themselves |
| Codec.WriteString | nbt_editor.cpp:313-316 | writeString emits a 2-byte big-endian prefix equal to the byte length modulo 65536, then exactly the string's bytes |
| Codec.ReadString | nbt_editor.cpp:265-270 | readString returns the bytes after the prefix, as many as the prefix says, and advances past them |
| Codec.StringRoundTrip | nbt_editor.cpp:265-270 | a string of at most 32767 bytes, written and read back at the same offset, is the original string, and the offset advances by 2 plus its length |
| Codec.StringBytesRoundTrip | nbt_editor.cpp:265-270 | any prefix and bytes readString accepts, written again by writeString, are reproduced exactly |
| Codec.LongStringUnreadable | nbt_editor.cpp:265-267 | for a string of 32768 to 65535 bytes, the written prefix reads back as a negative length, so readString cannot read it |
| Codec.StringBytesRoundTripU16 | nbt_editor.cpp:265-270 | the corrected readString takes the prefix as an unsigned count: whatever it accepts, written again by writeString, reproduces the prefix and the bytes it read |
| Codec.StringRoundTripU16 | nbt_editor.cpp:265-270 | with an unsigned prefix, every string of up to 65535 bytes reads back unchanged |
| Codec.OversizeStringTruncated | nbt_editor.cpp:313-316 | a string of 65536 bytes or more is written with a wrapped length, so even an unsigned reader recovers only a proper prefix of it |
| Codec.WriteStringChecked | nbt_editor.cpp:313-316 | the corrected writeString succeeds exactly when the length fits 16 bits, and what it writes reads back as the string |
| Decimal.ParseIntegerOfText | nbt_editor.cpp:192-201 | text made of white space, an optional sign, a non-empty run of digits and a tail that does not start with a digit parses, as `strtol` does, to the signed value of the digits |
| Decimal.ParseIntegerText | nbt_editor.cpp:192-201 | conversely, every text the parse accepts has that shape, for the value it gives |
| Decimal.StoIOfText | nbt_editor.cpp:192-198 | `std::stoi` accepts such integer text exactly when its value fits int32, and then gives that value; otherwise it throws |
| Decimal.StoIText | nbt_editor.cpp:192-198 | every text `std::stoi` accepts is integer text for the value it gives |
| Decimal.StoIOfDecimal | nbt_editor.cpp:192-198 | `std::stoi` of `std::to_string(v)` followed by any non-digit text gives v when v fits int32, and throws otherwise |
| Decimal.StoLLOfText | nbt_editor.cpp:200-201 | `std::stoll` accepts integer text exactly when its value fits int64, and then gives that value; otherwise it throws |
| Decimal.StoLLText | nbt_editor.cpp:200-201 | every text `std::stoll` accepts is integer text for the value it gives |
| Decimal.StoLLOfDecimal | nbt_editor.cpp:200-201 | `std::stoll` of `std::to_string(v)` followed by any non-digit text gives v when v fits int64, and throws otherwise |
| Decimal.ParseDecimalString | nbt_editor.cpp:146-153 | the text `std::to_string` gives for any integer parses back to that integer, whatever non-digit text follows |
| Tags.Lookup | nbt_editor.cpp:65 | a key is found exactly when the map holds it, and what is found is the child stored under it |
| Tags.Put | nbt_editor.cpp:501 | `compoundVal[k] = t` keeps the map sorted, adds k to the keys, stores t under k, keeps every other key's child, and grows the map by one exactly when k was absent |
| Tags.PutEntries | nbt_editor.cpp:501 | the assignment stores nothing but the old entries and the new one |
| Tags.KeysIndex | nbt_editor.cpp:65 | a key belongs to the map exactly when some entry carries it |
| Tags.KeyLessTransitive | nbt_editor.cpp:65 | the key order of `std::string` is transitive |
| Tags.KeyLessTotal | nbt_editor.cpp:65 | any two distinct keys are ordered one way or the other |
| Tree.FlattenLength | nbt_editor.cpp:365-379 | flattenTags lists one row per node of the tree, with the node itself first |
| Tree.RefreshRows | nbt_editor.cpp:381-384 | refreshTagList lists no rows for a null root, and otherwise one row per node with the root at row 0 |
| Tree.FlattenMembers | nbt_editor.cpp:365-379 | a tag appears among the rows exactly when it is the root or a node of some child's subtree |
| Tree.FlattenChildBlock | nbt_editor.cpp:370-378 | the rows of each child's subtree form one contiguous block, which is that child's own listing |
| Tree.FlattenChildOrder | nbt_editor.cpp:370-378 | an earlier child, which for a compound is a smaller key, has its whole block before a later child's first row |
| Tree.NodeAtIsRow | nbt_editor.cpp:365-384 | addressing a node by row i picks the tag that flatTagList holds at i |
| Tree.UpdateAtRows | nbt_editor.cpp:365-379 | replacing the node at row i keeps the heads of the rows before i, puts the new subtree's rows at i, and leaves the rows after the old subtree unchanged |
| Tree.UpdateKeepingChildren | nbt_editor.cpp:365-379 | replacing a node by one with the same children keeps the row count and every other row's head |
| Tree.UpdateAtValid | nbt_editor.cpp:65 | putting a tree whose compounds are sorted at any row keeps every compound sorted |
| Tree.NodeAtValid | nbt_editor.cpp:65 | every subtree of a tree whose compounds are sorted has sorted compounds too |
| Tree.AllValidIndex | nbt_editor.cpp:64-65 | a sequence of children is valid exactly when each child is |
| Editor.SetValueFromString | nbt_editor.cpp:189-215 | the edit fails exactly when the kind's parse throws; a byte or short gets the parsed int wrapped to its width; an int or long gets the parsed value; a float or double gets what stof/stod give; a string gets the text; other kinds are unchanged; no other field, the kind or the name changes |
| Editor.RetypeDisplayedInteger | nbt_editor.cpp:146-153 | typing back the decimal text shown for an integer tag leaves the tag unchanged |
| Editor.TrailingTextIgnored | nbt_editor.cpp:197-198 | an int edit stops at the first non-digit after the digits |
| Editor.ByteWrapsAround | nbt_editor.cpp:191-192 | a byte typed as 300 stores 44 |
| Editor.ShortWrapsAround | nbt_editor.cpp:194-195 | a short typed as 40000 stores -25536 |
| Editor.IntOutOfRangeFails | nbt_editor.cpp:197-198 | an int typed past the int32 range makes the edit fail and leaves the tag as it was |
| Editor.Selected | nbt_editor.cpp:411-413 | selectedTag is the row of the flattened tree the selection names, and it keeps the map invariant |
| Editor.Entered | nbt_editor.cpp:473-483 | the std::string built from the 256-byte input buffer is a prefix of the line of at most 255 bytes that holds no NUL and stops short of 255 bytes and of the line's end only at a NUL; a NUL-free line of at most 255 bytes is kept whole |
| Editor.EditValue | nbt_editor.cpp:439-489 | nothing changes without a selection, for a non-editable kind, without a line, or when the parse throws; otherwise the selected node becomes setValueFromString's result and the modified flag is set; the selection stays put |
| Editor.EditValueRows | nbt_editor.cpp:481-487 | an edit keeps the number of rows and every other row's head |
| Editor.WithFreshChild | nbt_editor.cpp:499-501 | the compound stores a string tag named new_tag holding "value" under new_tag, keeps every other key's child and every other field, and grows by one exactly when new_tag was absent |
| Editor.AddTag | nbt_editor.cpp:497-505 | only a selected compound changes: it gets the new child and the modified flag is set, and the selection stays on the compound |
| Editor.AddTagRows | nbt_editor.cpp:497-505 | after addTag the rows before the compound keep their heads, the compound's block becomes the new compound's listing, and the later rows are unchanged |
| Editor.DeleteTag | nbt_editor.cpp:507-512 | the root and a null selection are untouched; any other selected node has its name prefixed with "[DELETED] ", keeps its kind and value, and the modified flag is set |
| Editor.DeleteTagRows | nbt_editor.cpp:507-512 | deleteTag removes nothing: the row count and every other row's head are unchanged |

## Left out

- The terminal UI is not modelled because it is presentation and terminal
  I/O. This covers `drawEditor`, `run`, `handleInput`, scrolling, the
  prompt and echo handling in `editValue`, and `main`.
- The text `editValue` pre-fills into the input buffer is left out. It
  only seeds what is shown on screen. The value stored is the line
  `mvgetnstr` returns, which is a parameter here.
- `NBTFile::load` is left out because it builds a fixed demonstration tree.
- `NBTFile::save` is left out because it returns true without writing
  anything.
- `saveChanges` is left out because it only clears the flag on `save`'s
  result.
- `readTag`/`writeTag` are declared without a definition, so there is
  nothing to model.
- The unused `compressed` flag is left out.
- `readFloat`/`readDouble`/`writeFloat`/`writeDouble` are left out. They
  reinterpret the int/long codec's bits with `memcpy`, and floats are
  carried only as bit patterns here.
- `std::stof`/`std::stod` are left out because they are floating-point
  numerics. They are parameters of `Editor.SetValueFromString`.
- Stream failures are left out. A short read of an integer leaves its
  value uninitialised in the source, so the model states enough remaining
  bytes as a precondition of every read.
- Codec.ReadString: its precondition `CanReadString` excludes two source
  behaviours. A negative length prefix makes `std::string value(length,
  '\0')` throw `std::length_error`; the model has no such outcome, and
  `Codec.LongStringUnreadable` shows which strings reach it. A short read
  of the body returns a string padded with the NULs that constructor
  filled in, rather than an uninitialised value; the model does not
  describe that result either.
- Host byte order is left out. The model states the big-endian on-wire
  result a little-endian host produces.
- `NBTValue::toString`, `NBTTag::toString` and `tagTypeToString` are left
  out because they are display formatting. Only the integer text is
  modelled, as `Decimal.DecimalString`, because editing relies on it.
- The `depth` argument of `flattenTags` is left out because the listing
  never uses it.
- Pointer identity is left out because nodes are values. `deleteTag`'s
  root test (`selectedTag != root`) is row 0. "Each node appears once" is
  stated by rows: the listing has exactly one row per node
  (`Tree.FlattenLength`), and row i is node i (`Tree.NodeAtIsRow`).
- `std::stoi`/`std::stoll` use the C locale's white space and plain decimal
  digits.

## Findings

| source | as written | input that shows it | evidently intended | confidence | as-written member | corrected member |
|---|---|---|---|---|---|---|
| nbt_editor.cpp:265-270 | readString reads the length prefix into an `int16_t` | a string of 32768 bytes: writeString emits the prefix 0x80 0x00, and readString takes it as -32768 and cannot read the string back | the prefix is an unsigned 16-bit byte count, so every string of up to 65535 bytes round-trips | not executed | Codec.LongStringUnreadable | Codec.StringRoundTripU16 |
| nbt_editor.cpp:313-316 | writeString writes `static_cast<int16_t>(value.length())` with no length check | a string of 65536 bytes: the prefix is 0x00 0x00, so a reader gets the empty string and then reads the string's bytes as further data | a string too long for the prefix is refused | not executed | Codec.OversizeStringTruncated | Codec.WriteStringChecked |
