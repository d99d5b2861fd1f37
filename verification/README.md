# Protocol buffers in C, a maze and a snake: a verified model

Three programs of the repository, modelled in Dafny and proved for all inputs.

**The nanopb codec** (`BankUI/Pods/nanopb`, version 0.3.9.6), a table-driven encoder and decoder for
Protocol Buffers. `Wire.dfy` says on byte strings what the encoder writes and what the decoder makes of
any input; the stream, iterator, decoder and encoder classes update buffers, indices, structures and the
required-field bitmap in place as the C code does, and each method is proved to compute the wire
function of its name: the same acceptance, the same result, the same bytes left or written. The main
theorems are then about those functions.

| file | holds |
|---|---|
| `Wrappers.dfy`, `Bits.dfy` | options and parse results; bits, masks, two's complement |
| `Varint.dfy`, `VarintRange.dfy` | varints, zigzag, fixed-width integers; what the 32-bit decoder accepts |
| `Descriptor.dfy`, `Wire.dfy` | field descriptors, messages, the wire format as functions |
| `Merge.dfy`, `RoundTrip.dfy`, `NormalForm.dfy` | what decoding an encoding amounts to, and the form of decoded messages |
| `Codec.dfy`, `Records.dfy`, `LastOneWins.dfy` | the main theorems; concatenation, unknown fields, framing; the specification's merge |
| `Skipping.dfy`, `Arrays.dfy` | unknown fields and wire types; packed, unpacked and mixed arrays |
| `Scalars.dfy`, `Presence.dfy` | which values are stored or refused; what is left out, initialised, required |
| `Examples.dfy` | the bytes of one field of every type |
| `FieldIter.dfy`, `RequiredFields.dfy` | the wrapping iterator; the bitmap of required fields |
| `IStream.dfy`, `Decoder.dfy` | `pb_decode.c`, in place |
| `OStream.dfy`, `Encoder.dfy` | `pb_encode.c`, in place |
| `Grid.dfy`, `Maze.dfy`, `Snake.dfy` | the two games |

**The maze walker** (`Maze/Maze.playground`) follows the right-hand wall without recording where it has
been. In any maze it reaches the boundary within a known number of steps or never; with a free cell
inside the entrance it always does.

**The snake game** (`Snake/Snake.playground`) keeps an occupancy matrix beside the list of the snake's
cells. The two are proved to agree after every tick of every game.

Points at which the code differs from what its documentation or a reader would expect; the model follows
the code:

- A submessage in a oneof is initialised anew by every record (`pb_decode.c` 468-474). Section "Last One
  Wins" of the Protocol Buffers Encoding specification asks for a merge when the same member comes again,
  and a comment in the code (`pb_decode.c` 1136) speaks of one too. `LastOneWins.LostFieldExample` gives
  the bytes, `LastOneWins.MeetsSpecExactly` the exact condition under which the two agree.
- The encoder accepts a string that fills its buffer without a NUL, the decoder refuses it. So the round
  trip holds exactly for messages whose encoded strings are terminated (`Codec.AcceptedIffTerminated`).
- The shift counter of the 32-bit varint decoder is an eight-bit type on common platforms and wraps
  around at byte number 37, so that over-long varints can be accepted with a wrong value
  (`Varint.LongVarintExample`); `Varint.Varint32Exact` says exactly when.
- Of a fifth varint byte that goes on, the 32-bit decoder drops three bits unseen, and it takes any mixture
  of empty and sign-extension bytes after it: 2^32 in six bytes is read as 0
  (`VarintRange.DroppedBitsExample`). `VarintRange.RefusedExactly` shows that every value in range is
  accepted, and which others are.
- The wire type of a record is not compared with the type of its field; only packed arrays look at it
  (`Codec.WireTypeExample`, `Codec.WireTypeIgnored`).
- An empty descriptor finds tag 0 at its terminator entry and reads a bool instead of skipping the
  record (`Records.EmptyMessageExample`, `Records.ZeroTagExactly`).
- The entrance search of the maze does not look at the cell inside. With a wall there the walk may
  never end (`Mazes.WalledInNeverEnds`); some such walks do end, and `Mazes.EndsSoonOrNever` tells how
  long any walk has to be watched to know.
- The snake may cross itself: turns towards the apple do not check the cell
  (`SnakeGame.CrossingIsReached`, `SnakeGame.CrossesExactly`). The invariants hold nevertheless.

The widths are those of the repository's build (`PB_FIELD_32BIT`). That build also turns on
`PB_ENABLE_MALLOC`, which for messages without pointer fields adds only the release of nothing.

Messages are typed by what the C types can hold (`Descriptor.Typed`); a descriptor is well formed when it
is laid out as the nanopb generator does, with distinct tags between 1 and 2^29 - 1: members in order,
each with its has_, _count or which_ member in front, and past the largest member of a union before it.

## Model

| member | source | states |
|---|---|---|
| `Codec.RoundTrip` | BankUI/Pods/nanopb/pb_encode.c:528-550 | For every well-formed descriptor (nested, repeated, packed, oneof, optional, required) and every message the C types can hold whose strings are terminated: decoding the encoded bytes succeeds, consumes all of them, and gives a message a reader cannot tell apart from the original, in normal form |
| `Codec.AcceptedIffTerminated` | BankUI/Pods/nanopb/pb_decode.c:1476-1495 | The round trip's condition is exact: the encoding of an encodable message is accepted by the decoder if and only if every encoded string leaves room for its NUL |
| `Codec.UnterminatedExample` | BankUI/Pods/nanopb/pb_encode.c:890-898 | A message the encoder accepts and the decoder refuses: a one-byte string buffer holding one character |
| `Codec.DecodeEncoded` | BankUI/Pods/nanopb/pb_decode.c:925-1073 | Decoding an encoded message into any existing structure is a field-by-field merge, defined apart from both coders: repeated fields append, submessages merge, everything else is replaced; it fails exactly when an array at some depth has no room or an encoded string no NUL |
| `Codec.DecodedIsStable` | BankUI/Pods/nanopb/pb_decode.c:1075-1087 | Whatever bytes the decoder accepts: counts, strings and bytes of the result lie within capacity, the result can be encoded, and decoding that encoding gives exactly the same structure again |
| `Codec.MergedSame` | BankUI/Pods/nanopb/pb_decode.c:836-919 | Merging a message into freshly initialised storage keeps its presence flags, counts and present data at every nesting depth; absent data and implicit zeros may change only to defaults |
| `Codec.ExampleInt32` | BankUI/Pods/nanopb/pb_encode.c:776-797 | "A Simple Message" of the Encoding specification: int32 150 in field 1 is 08 96 01; zero with implicit presence is not written |
| `Codec.ExampleSubmessage` | BankUI/Pods/nanopb/pb_encode.c:717-765 | "Submessages" of the Encoding specification: that message in field 3 is 1A 03 08 96 01 |
| `Codec.ExamplePacked` | BankUI/Pods/nanopb/pb_encode.c:164-205 | "Packed Repeated Fields" of the Encoding specification: 3, 270 and 86942 in field 6 are 32 06 03 8E 02 9E A7 05 |
| `Codec.WireTypeIgnored` | BankUI/Pods/nanopb/pb_decode.c:414-475 | The wire type plays no part in how a known field is read, but to tell a packed array from a single item |
| `Codec.WireTypeExample` | BankUI/Pods/nanopb/pb_decode.c:957-1020 | The bytes 0A 05, an int32 field with the wire type of a string, decode to the number 5 just as 08 05 does |
| `RoundTrip.MessageBack` | BankUI/Pods/nanopb/pb_decode.c:943-1021 | Decoding exactly the bytes a message was encoded to gives the merge when every string is terminated and every array has room, and fails otherwise |
| `RoundTrip.FieldsBack` | BankUI/Pods/nanopb/pb_encode.c:528-550 | The records of a message from any field on, followed by any bytes, leave the record loop in the merged state at exactly those bytes, with exactly the present fields marked as seen; or make it fail for want of a NUL or of room |
| `RoundTrip.FieldBack` | BankUI/Pods/nanopb/pb_encode.c:341-426 | The same for all records of one field, packed or not |
| `RoundTrip.RecordsBack` | BankUI/Pods/nanopb/pb_encode.c:208-233 | The same for an unpacked array, of numbers too, one record for each item; an unterminated string or a full array at any item makes the run fail |
| `RoundTrip.PackedBack` | BankUI/Pods/nanopb/pb_decode.c:425-453 | The body of a packed array decodes to the old items followed by the encoded ones, up to its last byte, exactly when together they fit |
| `RoundTrip.ValueBack` | BankUI/Pods/nanopb/pb_decode.c:1503-1525 | An encoded value followed by any bytes is read back merged into the current value, leaving those bytes; it fails exactly when it holds an unterminated string or overflows an array of the current value |
| `RoundTrip.ScalarBack` | BankUI/Pods/nanopb/pb_decode.c:1318-1548 | Every scalar type the encoder accepts is read back, consuming exactly its bytes |
| `RoundTrip.SignedBack` | BankUI/Pods/nanopb/pb_decode.c:1329-1364 | Sign extension to 64 bits on the wire is undone by the two casts of the decoder, for 8, 16, 32 and 64-bit fields |
| `NormalForm.RunNormal` | BankUI/Pods/nanopb/pb_decode.c:943-1021 | Every run of the record loop, on any input, keeps a structure in normal form: data within capacity, absent data at its default, at most one member of a oneof selected |
| `NormalForm.NormalIsEncodable` | BankUI/Pods/nanopb/pb_encode.c:341-426 | A structure in normal form is accepted by the encoder, and all its strings are terminated |
| `NormalForm.NormalUnchanged` | BankUI/Pods/nanopb/pb_decode.c:925-1073 | Merging a structure in normal form into a fresh one reproduces it exactly |
| `NormalForm.SetDefaultsForgets` | BankUI/Pods/nanopb/pb_decode.c:908-919 | Initialisation sets every member: the result does not depend on what the structure held before |
| `NormalForm.DefaultsNormal` | BankUI/Pods/nanopb/pb_decode.c:836-906 | A freshly initialised structure is in normal form |
| `NormalForm.AllDefault` | BankUI/Pods/nanopb/pb_encode.c:318-331 | A submessage in normal form in which every field counts as default is the freshly initialised one, so leaving it out loses nothing |
| `NormalForm.NormalIsShaped` | BankUI/Pods/nanopb/pb_decode.c:456-461 | A structure in normal form can be merged into again: its arrays are within capacity at every depth |
| `NormalForm.TurnNormal` | BankUI/Pods/nanopb/pb_decode.c:943-1021 | One record keeps a structure in normal form |
| `NormalForm.PutIntact` | BankUI/Pods/nanopb/pb_decode.c:455-464 | A member left behind by a failed record leaves the other members as they were decoded |
| `NormalForm.DefaultsFit` | BankUI/Pods/nanopb/pb_decode.c:455-464 | Whatever the encoder accepts fits a freshly initialised structure |
| `LastOneWins.MeetsSpecExactly` | BankUI/Pods/nanopb/pb_decode.c:466-475 | Merging as the code does is merging as section "Last One Wins" asks, defined member by member apart from the code, if and only if at every depth where both messages select the same oneof submessage the new one sets again all that the old one holds |
| `LastOneWins.CoversExactly` | BankUI/Pods/nanopb/pb_decode.c:468-474 | Merging into an old value is the same as merging into a fresh one if and only if the new message sets again all that the old one holds: arrays empty, absent members at their default, at every depth |
| `LastOneWins.NoClashMeetsSpec` | BankUI/Pods/nanopb/pb_decode.c:466-475 | The code meets the section whenever, at no depth, both messages select the same oneof submessage |
| `LastOneWins.DecodeMeetsSpecExactly` | BankUI/Pods/nanopb/pb_decode.c:925-1073 | On the wire: decoding an encoded message onto a decoded structure gives the section's merge under exactly that condition |
| `LastOneWins.ConcatMeetsSpecExactly` | BankUI/Pods/nanopb/pb_decode.c:925-1073 | The same for two concatenated encodings |
| `LastOneWins.FreshMerge` | BankUI/Pods/nanopb/pb_decode.c:908-919 | Into freshly initialised storage the code and the section merge alike |
| `LastOneWins.LostFieldExample` | BankUI/Pods/nanopb/pb_decode.c:468-474 | The bytes 0A 02 08 01 0A 02 10 02, a oneof submessage with a = 1 and again with b = 2, decode to b = 2 alone; the section asks for both |
| `Records.ConcatIsMerge` | BankUI/Pods/nanopb/pb_decode.c:925-1073 | "Last One Wins": without required fields, decoding records s followed by any bytes t is decoding t into the result of decoding s, accepted or not |
| `Records.ConcatOntoAccepted` | BankUI/Pods/nanopb/pb_decode.c:1030-1070 | With required fields: once s alone is accepted, s followed by t is accepted exactly when the records of t can be read, and need not repeat them |
| `Records.RunConcat` | BankUI/Pods/nanopb/pb_decode.c:943-1021 | A run that used up its input goes on with appended bytes as if started there; a run ended by a zero tag leaves appended bytes unread |
| `Records.RunSeen` | BankUI/Pods/nanopb/pb_decode.c:1012-1017 | The fields found earlier play no part in how later records are read |
| `Records.EncodedConcat` | BankUI/Pods/nanopb/pb_encode.c:528-550 | Decoding two concatenated encodings merges the two messages in order, and fails exactly when the arrays of the first leave no room for those of the second |
| `Records.RecordsCommute` | BankUI/Pods/nanopb/pb_decode.c:957-1020 | Adjacent records of fields in different struct members may be exchanged |
| `Records.UnknownIsTransparent` | BankUI/Pods/nanopb/pb_decode.c:957-986 | A well-formed record with a tag that is not in the descriptor, put between records and any bytes, changes neither acceptance nor the message nor what is left |
| `Records.ZeroTagIsUnknown` | BankUI/Pods/nanopb/pb_common.c:78-95 | Tag 0 is unknown to every descriptor but the empty one, which is the only exclusion |
| `Records.ZeroTagExactly` | BankUI/Pods/nanopb/pb_common.c:24-29 | With an empty descriptor a record with tag 0 is transparent if and only if what a bool read off its payload leaves is again a sequence of records |
| `Records.EmptyMessageExample` | BankUI/Pods/nanopb/pb_common.c:24-29 | The nine bytes 01 00 00 00 00 00 00 00 00, a 64-bit zero with tag 0, are not skipped by an empty message: it stops after the third |
| `Records.SkipExtends` | BankUI/Pods/nanopb/pb_decode.c:278-331 | Skipping an unknown field consumes exactly its payload, whatever follows |
| `Records.SlotExtends` | BankUI/Pods/nanopb/pb_decode.c:406-480 | Reading a known field consumes exactly its payload, whatever follows |
| `Skipping.PayloadSkipped` | BankUI/Pods/nanopb/pb_decode.c:278-331 | A complete varint of any length, eight bytes, a length with its bytes, or four bytes, as the wire type says, is skipped, and nothing of what follows it |
| `Skipping.SkipExactly` | BankUI/Pods/nanopb/pb_decode.c:278-331 | When a payload can be skipped at all: exactly when it is complete, for the four wire types, and never for any other |
| `Skipping.KeyExactly` | BankUI/Pods/nanopb/pb_decode.c:298-319 | A key is a non-zero varint, eight times the tag plus the wire type; a zero in whatever form ends the message |
| `Skipping.UnknownFieldIgnored` | BankUI/Pods/nanopb/pb_decode.c:957-986 | A record of an unknown tag with any payload of its wire type, between records and any bytes, changes neither acceptance nor the message nor what is left |
| `Skipping.UnknownFieldRefused` | BankUI/Pods/nanopb/pb_decode.c:957-986 | A record of an unknown tag is refused when its payload is cut short or its wire type is that of a group |
| `Skipping.UnknownStringExample` | BankUI/Pods/nanopb/pb_decode.c:289-296 | The bytes 12 02 08 07, an unknown string in field 2, leave field 1 at 0: its contents are not decoded |
| `Skipping.ValueIsPayload` | BankUI/Pods/nanopb/pb_encode.c:675-707 | The encoding of every value is a payload of the wire type in the key of its field, so any reader can frame it |
| `Skipping.ForeignMessageSkipped` | BankUI/Pods/nanopb/pb_encode.c:675-707 | A message of which the reader knows no field is skipped to its end |
| `Skipping.PackableIsNumeric` | BankUI/Pods/nanopb/pb_encode.c:163-165 | Exactly the types that are not written with a length can be packed |
| `Arrays.ChunksBack` | BankUI/Pods/nanopb/pb_decode.c:424-464 | However an array of numbers is cut into packed records and records of one item, its items are appended in order; it is refused exactly when they do not fit |
| `Arrays.CutIsIrrelevant` | BankUI/Pods/nanopb/pb_decode.c:424-464 | Two ways to cut the same array have the same effect |
| `Arrays.UnpackedIsPacked` | BankUI/Pods/nanopb/pb_decode.c:454-464 | A record for each item is as good as one packed record, accepted or not |
| `Arrays.UnpackedExample` | BankUI/Pods/nanopb/pb_decode.c:454-464 | 08 01 08 02 is the array 1, 2, just as 0A 02 01 02 is |
| `Records.DelimitedEndsEarly` | BankUI/Pods/nanopb/pb_decode.c:387-400 | A delimited message ended by a zero tag within its declared length: the rest of that length is passed over |
| `Records.DelimitedRoundTrip` | BankUI/Pods/nanopb/pb_decode.c:1104-1117 | A delimited message followed by any bytes decodes to the message and leaves exactly those bytes |
| `Records.NullTerminatedRoundTrip` | BankUI/Pods/nanopb/pb_decode.c:1119-1123 | So does a null-terminated one: no encoded record starts with a zero tag, and the terminator is consumed |
| `Wire.NextRecord` | BankUI/Pods/nanopb/pb_decode.c:943-1021 | Every record that is read shortens the input and keeps the shape of the structure, which is why decoding stops on every input |
| `Varint.Varint64Inverts` | BankUI/Pods/nanopb/pb_decode.c:255-275 | For every 64-bit value the decoder inverts the encoder, followed by any bytes, consuming exactly the encoded ones |
| `Varint.Varint64Length` | BankUI/Pods/nanopb/pb_encode.c:608-628 | No 64-bit value takes more than ten bytes |
| `Varint.Varint64Exactly` | BankUI/Pods/nanopb/pb_decode.c:255-275 | The 64-bit decoder takes every varint that ends within ten bytes and no other, and its value modulo 2^64 |
| `VarintRange.AcceptedExactly` | BankUI/Pods/nanopb/pb_decode.c:212-243 | Which inputs of up to 37 bytes the 32-bit decoder accepts: all but those with a fifth and last byte past the word, or a later byte that is neither empty nor one of a sign extension |
| `VarintRange.InRangeExactly` | BankUI/Pods/nanopb/pb_decode.c:221-229 | A varint of up to ten bytes is a 32-bit word or a sign-extended one exactly when nothing, or only ones, are above the word |
| `VarintRange.RefusedExactly` | BankUI/Pods/nanopb/pb_decode.c:212-243 | Every value in range is accepted, however it is padded up to ten bytes; one out of range exactly when its fifth byte goes on and the later bytes pass their test |
| `VarintRange.DroppedBitsExample` | BankUI/Pods/nanopb/pb_decode.c:231-234 | 80 80 80 80 90 00 has the value 2^32 and is read as 0 |
| `Varint.VarintMinimal` | BankUI/Pods/nanopb/pb_encode.c:608-628 | No byte string read as a value is shorter than the one the encoder writes for it |
| `Varint.Varint32Inverts` | BankUI/Pods/nanopb/pb_decode.c:187-247 | The 32-bit decoder inverts the encoder on every 32-bit value, consuming exactly its bytes |
| `Varint.Varint32RefinesVarint64` | BankUI/Pods/nanopb/pb_decode.c:187-275 | Whenever the 32-bit and the 64-bit decoder accept the same input they consume the same bytes, and the 32-bit result is the 64-bit result modulo 2^32 |
| `Varint.Varint32Bits` | BankUI/Pods/nanopb/pb_decode.c:213-236 | For every accepted input, of any length: bit i of the result is set exactly when byte k sets it at place 7k modulo 256, for some k |
| `Varint.RawVarintBits` | BankUI/Pods/nanopb/pb_decode.c:261-271 | Bit i of the untruncated value of a varint is bit i mod 7 of byte i div 7 |
| `Varint.Varint32Exact` | BankUI/Pods/nanopb/pb_decode.c:213-236 | An accepted input is read as its value modulo 2^32 if and only if no byte from number 37 on sets a bit the value has not; so always up to 37 bytes. It consumes exactly the varint |
| `Varint.LongVarintExample` | BankUI/Pods/nanopb/pb_decode.c:213-236 | 37 bytes 80 and a byte 01, whose value is a multiple of 2^32, are read as 8; the 64-bit decoder refuses them |
| `Varint.Varint32SignExtended` | BankUI/Pods/nanopb/pb_decode.c:212-243 | Every negative 32-bit integer sign-extended to ten bytes is accepted by the 32-bit decoder as its two's complement word |
| `Varint.Or32Adds` | BankUI/Pods/nanopb/pb_decode.c:231-234 | The shift-and-or of a group into the 32-bit result adds it modulo 2^32, the truncated fifth group included |
| `Varint.ZigZagInverts` | BankUI/Pods/nanopb/pb_decode.c:1269-1281 | Zigzag is a bijection between the signed and the unsigned 64-bit integers |
| `Varint.ZigZagOrders` | BankUI/Pods/nanopb/pb_encode.c:630-639 | Small absolute values get small codes, a negative number the smaller one of two opposites; with the bijection this leaves one function |
| `Varint.ZigZagTable` | BankUI/Pods/nanopb/pb_decode.c:1269-1281 | The table of the section "Signed Integers": 0, -1, 1, -2 are 0, 1, 2, 3, and back |
| `Varint.LittleEndianAt` | BankUI/Pods/nanopb/pb_encode.c:641-666 | Byte k of a fixed-width integer is its digit of weight 256^k |
| `Varint.LittleEndianInverts` | BankUI/Pods/nanopb/pb_encode.c:641-666 | The bytes of a fixed-width integer, least significant first, give it back |
| `Scalars.SignedExactly` | BankUI/Pods/nanopb/pb_decode.c:1329-1364 | A signed field holds n exactly when n is in its range and equal to the varint modulo 2^32, or 2^64 for a 64-bit field; anything else is refused |
| `Scalars.UnsignedExactly` | BankUI/Pods/nanopb/pb_decode.c:1366-1388 | An unsigned field holds the varint itself, exactly when it is in range |
| `Scalars.ZigZagExactly` | BankUI/Pods/nanopb/pb_decode.c:1390-1412 | A zigzag field holds the number whose code the varint is, exactly when it is in range |
| `Scalars.BoolExactly` | BankUI/Pods/nanopb/pb_decode.c:1318-1327 | Zero is false, any other 32-bit varint is true |
| `Scalars.FixedExactly` | BankUI/Pods/nanopb/pb_decode.c:1283-1315 | A fixed-width field takes its four or eight bytes as the digits of its value |
| `Scalars.BytesExactly` | BankUI/Pods/nanopb/pb_decode.c:1431-1466 | A bytes field holds all the bytes announced, exactly when they are there and fit |
| `Scalars.StringExactly` | BankUI/Pods/nanopb/pb_decode.c:1468-1501 | A string field takes all the bytes announced, exactly when they are there and leave room for a NUL, and holds those before the first NUL |
| `Scalars.FixedLengthExactly` | BankUI/Pods/nanopb/pb_decode.c:1527-1548 | A field of fixed length takes its length exactly, or none at all for zeros |
| `Scalars.TooLargeExample` | BankUI/Pods/nanopb/pb_decode.c:1348-1361 | 300 is refused by 8-bit fields and stored by 16-bit ones |
| `Wire.UpToFirstNul` | BankUI/Pods/nanopb/pb_decode.c:1498-1499 | What a reader sees of a stored string is its part before the first NUL |
| `Presence.InitialMembers` | BankUI/Pods/nanopb/pb_decode.c:836-906 | A declared default is stored; without one the data is zero or empty; nothing is present |
| `Presence.NothingDecoded` | BankUI/Pods/nanopb/pb_decode.c:1075-1087 | Decoding nothing leaves the initial values |
| `Presence.EmptyInput` | BankUI/Pods/nanopb/pb_decode.c:1030-1070 | Nothing at all is refused exactly when there is a required field |
| `Presence.AcceptedExactly` | BankUI/Pods/nanopb/pb_decode.c:1030-1070 | A message is accepted exactly when all its records can be read and among them is one with the tag of each of the first 64 required fields |
| `Presence.RequiredCounted` | BankUI/Pods/nanopb/pb_common.c:65-70 | The index of a required field is the number of required fields before it |
| `Presence.SeenExactly` | BankUI/Pods/nanopb/pb_decode.c:1012-1017 | The fields found are those of which a record was read |
| `Presence.OthersUntouched` | BankUI/Pods/nanopb/pb_decode.c:957-1020 | A member for which no record was read is left as it was |
| `Presence.ZeroExactly` | BankUI/Pods/nanopb/pb_encode.c:269-336 | Data without a presence flag counts as zero exactly when it has its initial value and, for messages, nothing in it must be written anyway |
| `Presence.WrittenExactly` | BankUI/Pods/nanopb/pb_encode.c:351-420 | Which fields of a decoded message are written: required ones, flagged ones that are present, implicit ones that differ from their initial value or hold something that must be written, non-empty arrays, selected oneof members |
| `Presence.ChildEndsEarly` | BankUI/Pods/nanopb/pb_decode.c:1503-1525 | A submessage may be ended by a zero tag within its declared length; what is left of it is passed over and reading goes on right behind it |
| `Examples.BoolBytes` | BankUI/Pods/nanopb/pb_encode.c:769-774 | A required bool in field 1 is 08 01 or 08 00 |
| `Examples.UnsignedBytes` | BankUI/Pods/nanopb/pb_encode.c:799-815 | 2 and 300 in unsigned fields are 08 02 and 08 AC 02 |
| `Examples.NegativeBytes` | BankUI/Pods/nanopb/pb_encode.c:776-797 | -2 in a 32-bit field takes ten bytes |
| `Examples.ZigZagBytes` | BankUI/Pods/nanopb/pb_encode.c:817-833 | -1, 1 and 3600 in zigzag fields are 08 01, 08 02 and 08 A0 38 |
| `Examples.FixedBytes` | BankUI/Pods/nanopb/pb_encode.c:835-850 | Fixed-width fields have the keys 0D and 09 and their low byte first |
| `Examples.LengthBytes` | BankUI/Pods/nanopb/pb_encode.c:852-912 | Bytes, strings and fixed-length bytes have the key 0A and their length first |
| `Examples.EnumExample` | BankUI/Pods/nanopb/pb_encode.c:341-426 | An optional enum 2 in field 9 is 48 02; absent, it is not written |
| `Examples.WrittenInOrder` | BankUI/Pods/nanopb/pb_encode.c:528-550 | Fields are written in the order of the descriptor, and nothing else is |
| `RequiredFields.BitmapIsExact` | BankUI/Pods/nanopb/pb_decode.c:1051-1069 | The whole-word and remainder tests on the bitmap hold exactly when each of the first 64 required fields was found |
| `RequiredFields.RecordsUpdate` | BankUI/Pods/nanopb/pb_decode.c:1012-1017 | Setting one bit keeps the two words an exact record of the required fields found so far |
| `RequiredFields.SetBit` | BankUI/Pods/nanopb/pb_decode.c:1015-1016 | Or-ing the shifted one into a word sets that bit and no other, within 32 bits |
| `RequiredFields.MaskTest` | BankUI/Pods/nanopb/pb_decode.c:1060-1068 | Comparing a word without higher bits to allbits shifted right by 32-n tests exactly its low n bits |
| `RequiredFields.AllRequiredByNumber` | BankUI/Pods/nanopb/pb_decode.c:1036-1049 | The required fields are numbered without gaps, so acceptance is the same by position as by number, cut at 64 |
| `FieldIters.FieldIter.constructor` | BankUI/Pods/nanopb/pb_common.c:8-18 | The iterator starts at the first field with the address and count a fresh walk gives |
| `FieldIters.FieldIter.Begin` | BankUI/Pods/nanopb/pb_common.c:8-18 | From any state the iterator is reset to the first field; false exactly for an empty descriptor |
| `FieldIters.FieldIter.Next` | BankUI/Pods/nanopb/pb_common.c:20-76 | After any step or wrap, the data address, size address and required index are those of a fresh walk to the position; false exactly on wrapping |
| `FieldIters.FieldIter.Find` | BankUI/Pods/nanopb/pb_common.c:78-95 | Searching from any position ends, finds a tag exactly when some field has it (tag 0 only in an empty descriptor), and otherwise leaves the iterator where it was |
| `FieldIters.SlotsAreMemory` | BankUI/Pods/nanopb/pb_common.c:45-73 | Members of one union share their data and size addresses; the members of any two other fields, has_, _count and which_ included, do not overlap |
| `FieldIters.ItemsFit` | BankUI/Pods/nanopb/pb_common.c:51-57 | Every item of an array lies before the members behind it |
| `FieldIters.AddressExample` | BankUI/Pods/nanopb/pb_common.c:40-73 | The addresses in a struct of a number, a counted array and a flag |
| `FieldIters.MemberInOrder` | BankUI/Pods/nanopb/pb_common.c:8-18 | Every member starts within its struct, and its has_, _count or which_ member ends before its data |
| `FieldIters.SizeAddressOwn` | BankUI/Pods/nanopb/pb_common.c:52-72 | The size address kept across union members is the one each member's own offset gives |
| `IStreams.IStream.Read` | BankUI/Pods/nanopb/pb_decode.c:102-137 | Delivers the next count bytes and moves past them, or fails without moving; the rest of the destination is untouched |
| `IStreams.IStream.Skip` | BankUI/Pods/nanopb/pb_decode.c:102-137 | The same without a destination |
| `IStreams.IStream.ReadByte` | BankUI/Pods/nanopb/pb_decode.c:141-157 | Delivers the next byte, or fails without moving exactly at the end |
| `IStreams.IStream.DecodeVarint32` | BankUI/Pods/nanopb/pb_decode.c:187-247 | The in-place loop over result and the eight-bit shift counter accepts exactly the inputs of the 32-bit specification, with its value and remaining bytes |
| `IStreams.IStream.DecodeVarint` | BankUI/Pods/nanopb/pb_decode.c:255-275 | The or-ing loop accepts exactly the varints of at most ten bytes and stores their value modulo 2^64 |
| `IStreams.Or64Adds` | BankUI/Pods/nanopb/pb_decode.c:265-272 | The shift-and-or of a group into the 64-bit result adds it modulo 2^64, the truncated tenth group included |
| `IStreams.IStream.SkipVarint` | BankUI/Pods/nanopb/pb_decode.c:278-287 | Skips up to the first byte without a continuation bit |
| `IStreams.IStream.SkipString` | BankUI/Pods/nanopb/pb_decode.c:289-296 | Skips a length and that many bytes, or fails |
| `IStreams.IStream.SkipField` | BankUI/Pods/nanopb/pb_decode.c:321-331 | Skips exactly the payload of the wire type; fails on an unknown wire type |
| `IStreams.IStream.DecodeTag` | BankUI/Pods/nanopb/pb_decode.c:298-319 | Tells apart a field key, the end of a message (end of input or zero tag) and a broken tag |
| `IStreams.IStream.MakeSubstream` | BankUI/Pods/nanopb/pb_decode.c:372-385 | The child gets exactly the declared bytes; child end plus what the parent keeps is the old end |
| `IStreams.IStream.CloseSubstream` | BankUI/Pods/nanopb/pb_decode.c:387-400 | However early the child stopped, the parent ends up just past the declared length with its remaining bytes |
| `Decoder.MessageSetToDefaults` | BankUI/Pods/nanopb/pb_decode.c:836-919 | Walking the iterator once initialises every member, nested ones included, and nothing else |
| `Decoder.DecBool` | BankUI/Pods/nanopb/pb_decode.c:1318-1327 | Any non-zero 32-bit varint is true |
| `Decoder.DecVarint` | BankUI/Pods/nanopb/pb_decode.c:1329-1364 | Signed fields: 32-bit sign view for narrow fields, and a value too large for the field is refused |
| `Decoder.DecUVarint` | BankUI/Pods/nanopb/pb_decode.c:1366-1388 | Unsigned fields: a value too large for the field is refused, never truncated |
| `Decoder.DecodeSVarint` | BankUI/Pods/nanopb/pb_decode.c:1269-1281 | The complemented and halved 64-bit word is the inverse of zigzag |
| `Decoder.DecSVarint` | BankUI/Pods/nanopb/pb_decode.c:1390-1412 | Zigzag fields: a value too large for the field is refused |
| `Decoder.DecFixed32` | BankUI/Pods/nanopb/pb_decode.c:1283-1295 | Four bytes shifted into place are the little-endian value |
| `Decoder.DecFixed64` | BankUI/Pods/nanopb/pb_decode.c:1298-1315 | Eight bytes shifted into place are the little-endian value |
| `Decoder.DecBytes` | BankUI/Pods/nanopb/pb_decode.c:1431-1466 | Stores exactly the declared bytes, or refuses a length beyond the size type or the capacity |
| `Decoder.DecString` | BankUI/Pods/nanopb/pb_decode.c:1468-1501 | Refuses a string without room for its NUL; what is stored reads as the bytes up to the first NUL |
| `Decoder.DecFixedLengthBytes` | BankUI/Pods/nanopb/pb_decode.c:1527-1548 | Accepts the exact length, or zero for all zeros |
| `Decoder.DecodeScalar` | BankUI/Pods/nanopb/pb_decode.c:69-81 | Dispatch by type agrees with the wire specification in acceptance, value and remaining bytes |
| `Decoder.DecSubmessage` | BankUI/Pods/nanopb/pb_decode.c:1503-1525 | Merges the child message, initialises array entries first, and closes the child whether it was decoded or not; on success the parent is past the declared length, on failure the partly merged message keeps its form |
| `Decoder.DecodePackedArray` | BankUI/Pods/nanopb/pb_decode.c:425-453 | Accepts exactly when every packed item decodes within capacity; the old items are kept in front |
| `Decoder.DecodeStaticField` | BankUI/Pods/nanopb/pb_decode.c:406-480 | One record of a field: packed or single, capacity checked, presence and oneof selection set, oneof submessages initialised anew; on failure only that member has changed, and it keeps its kind with a count at most one too large |
| `Decoder.DecodeRepeated` | BankUI/Pods/nanopb/pb_decode.c:424-464 | The repeated branch: packed or single, with the count one too large after an overflow |
| `Decoder.DecodeOneOf` | BankUI/Pods/nanopb/pb_decode.c:466-475 | The oneof branch: the selection is set first, a submessage is initialised anew |
| `Decoder.MarkSeen` | BankUI/Pods/nanopb/pb_decode.c:1012-1017 | Sets the bit of one required field number in the right word |
| `Decoder.RequiredFieldsPresent` | BankUI/Pods/nanopb/pb_decode.c:1030-1070 | From any iterator position, recounting by walking to the end and testing the words accepts exactly when all of the first 64 required fields were seen |
| `Decoder.DecodeRecord` | BankUI/Pods/nanopb/pb_decode.c:943-1021 | From any iterator position, one turn of the loop does what the record specification says and keeps the bitmap exact |
| `Decoder.DecodeNoinit` | BankUI/Pods/nanopb/pb_decode.c:925-1073 | On every input it terminates, accepts exactly what the specification accepts, and leaves its message in the structure and its remaining bytes in the stream; also on failure every member keeps its kind, at every depth that was reached, with counts at most one too large, and the stream never passes its end |
| `Decoder.Decode` | BankUI/Pods/nanopb/pb_decode.c:1075-1087 | The same into a structure initialised first, whatever it held before |
| `Decoder.DecodeDelimited` | BankUI/Pods/nanopb/pb_decode.c:1104-1117 | Reads one delimited message off the front and stops right after it |
| `Decoder.DecodeNullTerminated` | BankUI/Pods/nanopb/pb_decode.c:1119-1123 | Reads one null-terminated message and stops right after its terminator |
| `OStreams.OStream.OnBuffer` | BankUI/Pods/nanopb/pb_encode.c:86-101 | A stream that may write the given part of a buffer |
| `OStreams.OStream.Sizing` | BankUI/Pods/nanopb/pb_encode.h:106-110 | A stream that counts and has unlimited room |
| `OStreams.OStream.Write` | BankUI/Pods/nanopb/pb_encode.c:103-124 | Succeeds exactly when the bytes fit, then has written precisely them; nothing past the stream's limit ever changes |
| `OStreams.OStream.EncodeVarint` | BankUI/Pods/nanopb/pb_encode.c:608-628 | Writes exactly the base-128 groups of the value, or fails for lack of room |
| `OStreams.FillVarint` | BankUI/Pods/nanopb/pb_encode.c:614-625 | The group loop with its final byte cleared fills in the minimal form, at most ten bytes |
| `OStreams.CopyBytes` | BankUI/Pods/nanopb/pb_encode.c:74-84 | Replaces one stretch of the buffer and nothing else |
| `OStreams.Then` | BankUI/Pods/nanopb/pb_encode.c:103-124 | Two writers in a row are one writer of the concatenation: the same acceptance, room, bytes and limits |
| `Encoder.CheckProto3Default` | BankUI/Pods/nanopb/pb_encode.c:240-337 | Decides, at any nesting depth, whether a field has only default contents and is left out |
| `Encoder.EncodeTag` | BankUI/Pods/nanopb/pb_encode.c:669-673 | Writes the key of a field number and wire type |
| `Encoder.EncodeTagForField` | BankUI/Pods/nanopb/pb_encode.c:675-707 | Writes the key with the wire type of the field's type |
| `Encoder.EncodeString` | BankUI/Pods/nanopb/pb_encode.c:709-715 | Writes a length and the bytes, all or fails |
| `Encoder.EncodeSVarint` | BankUI/Pods/nanopb/pb_encode.c:630-639 | The complement of the doubled word is the zigzag code for every signed 64-bit value |
| `Encoder.EncodeFixed32` | BankUI/Pods/nanopb/pb_encode.c:641-650 | Writes the little-endian bytes of a 32-bit word |
| `Encoder.EncodeFixed64` | BankUI/Pods/nanopb/pb_encode.c:653-666 | Writes the little-endian bytes of a 64-bit word |
| `Encoder.EncBytes` | BankUI/Pods/nanopb/pb_encode.c:852-873 | Refuses exactly the sizes that exceed the field's storage |
| `Encoder.EncodeScalar` | BankUI/Pods/nanopb/pb_encode.c:54-68 | Dispatch by type writes the specified bytes and refuses exactly the values that cannot be encoded |
| `Encoder.EncodeSubmessage` | BankUI/Pods/nanopb/pb_encode.c:717-765 | The sizing pass counts exactly what the real pass writes, so "submsg size changed" is unreachable and the bounded substream never runs out |
| `Encoder.SecondPass` | BankUI/Pods/nanopb/pb_encode.c:740-764 | A pass given exactly the measured room succeeds and fills it |
| `Encoder.PackedSize` | BankUI/Pods/nanopb/pb_encode.c:176-191 | The size written before a packed array is the size of its items, by formula for fixed types and by a dry run otherwise |
| `Encoder.EncodePackedArray` | BankUI/Pods/nanopb/pb_encode.c:164-205 | Key, measured length and items of a packed array, or failure for lack of room or for an unencodable item |
| `Encoder.EncodeRecords` | BankUI/Pods/nanopb/pb_encode.c:208-233 | One record for each item, in order |
| `Encoder.EncodeArray` | BankUI/Pods/nanopb/pb_encode.c:147-236 | Nothing for an empty array; a count beyond the array is refused |
| `Encoder.EncodeBasicField` | BankUI/Pods/nanopb/pb_encode.c:341-426 | Writes exactly the records of the present values of a field |
| `Encoder.Encode` | BankUI/Pods/nanopb/pb_encode.c:528-550 | Succeeds exactly when the message is encodable and its bytes fit, then has written precisely them |
| `Encoder.EncodeDelimited` | BankUI/Pods/nanopb/pb_encode.c:552-555 | The encoding preceded by its length, with the same exactness |
| `Encoder.EncodeNullTerminated` | BankUI/Pods/nanopb/pb_encode.c:557-565 | The encoding followed by a zero byte, with the same exactness |
| `Encoder.GetEncodedSize` | BankUI/Pods/nanopb/pb_encode.c:567-576 | Succeeds exactly for encodable messages and gives the size of the bytes the encoder writes |
| `Encoder.EncodeToBuffer` | BankUI/Pods/nanopb/pb_encode.h:68-80 | Fit exactness: into an n-byte buffer an encodable message goes exactly when its measured size is at most n, changing precisely that prefix and nothing after it |
| `Mazes.EndsSoonOrNever` | Maze/Maze.playground/Contents.swift:226-247 | For every maze and entrance row: the walk reaches the boundary if and only if it does so within 4 x (free interior cells + 1) steps |
| `Mazes.OpenWalkEnds` | Maze/Maze.playground/Contents.swift:226-247 | With a free entrance and a free cell inside it, the walk ends after at most 4 x (free interior cells) steps |
| `Mazes.WalkNeverRepeats` | Maze/Maze.playground/Contents.swift:230-243 | From an open entrance no state (cell and heading) ever comes back while the walk is inside |
| `Mazes.StepKeepsHandOnWall` | Maze/Maze.playground/Contents.swift:233-241 | Every step turns to the first way, from the right hand counterclockwise, past walls only: the player turned right or has a wall on the right of his way |
| `Mazes.OneWayOnly` | Maze/Maze.playground/Contents.swift:233-241 | Only one way to a free cell does that |
| `Mazes.CorridorExample` | Maze/Maze.playground/Contents.swift:226-247 | A corridor entered in the middle is left at its right-hand end, (1, 0), after two steps |
| `Mazes.StepInjective` | Maze/Maze.playground/Contents.swift:233-241 | The right, front, left, back rule never takes two different states with a free cell behind to the same state |
| `Mazes.StepReachesFree` | Maze/Maze.playground/Contents.swift:239-241 | A step from an interior cell reaches a free cell of the grid, even the unchecked back move |
| `Mazes.WalkIsSafe` | Maze/Maze.playground/Contents.swift:226-247 | From an open entrance every cell of the walk is in the grid and free, with a free cell behind |
| `Mazes.WalkStaysKnown` | Maze/Maze.playground/Contents.swift:138-184 | In any maze no step leaves the grid, and the only cells entered that are not free are the start and the entrance |
| `Mazes.LoopNeverEnds` | Maze/Maze.playground/Contents.swift:230-243 | A walk that repeats an interior state is inside for ever |
| `Mazes.ProgramEnds` | Maze/Maze.playground/Contents.swift:252-254 | The program ends when the cell inside the found entrance is free, and also when no entrance was found |
| `Mazes.WalledInNeverEnds` | Maze/Maze.playground/Contents.swift:206-247 | A maze with a free entrance in front of a wall in which the walk never ends |
| `Mazes.FindWayOut` | Maze/Maze.playground/Contents.swift:226-248 | For every entrance from which the walk ends: the loop stops at its first boundary cell with the right hand on the wall at every step; from an open entrance it crosses free cells only, within the bound |
| `Mazes.FindEntrance` | Maze/Maze.playground/Contents.swift:206-224 | The first free cell of the first or last row, or the corner exactly when that row has none |
| `Mazes.Player.TurnAndMove` | Maze/Maze.playground/Contents.swift:119-135 | Arithmetic on raw values is up to three quarter turns, followed by one step ahead |
| `Mazes.FrontWayIsFree` | Maze/Maze.playground/Contents.swift:138-151 | The tabulated neighbour is the cell ahead |
| `Mazes.LeftWayIsFree` | Maze/Maze.playground/Contents.swift:154-167 | The tabulated neighbour is the cell three quarter turns on |
| `Mazes.RightWayIsFree` | Maze/Maze.playground/Contents.swift:170-183 | The tabulated neighbour is the cell one quarter turn on |
| `Mazes.Maze.InRange` | Maze/Maze.playground/Contents.swift:82-84 | The index of a cell of the grid is within the matrix |
| `SnakeGame.GameInvariant` | Snake/Snake.playground/Contents.swift:319-373 | In every game, for all draws: length is two plus the apples eaten, cells adjoin and are off the wall, the apple is not under the snake, and after each tick exactly walls and snake are occupied (without the cell just grown) |
| `SnakeGame.TickKeepsInv` | Snake/Snake.playground/Contents.swift:326-372 | A tick keeps the invariant, moves the head at most one cell, stops only when it ends the game, and lengthens the snake by one exactly on reaching the apple |
| `SnakeGame.MoveKeepsInv` | Snake/Snake.playground/Contents.swift:143-187 | A move to any interior cell, a self-crossing one included, leaves exactly walls and the shifted snake occupied |
| `SnakeGame.AppleTurnApproaches` | Snake/Snake.playground/Contents.swift:306-354 | After the first move every turn towards the apple cuts the head's distance to it by exactly one; before it the turn at least stays off the wall |
| `SnakeGame.TickTurns` | Snake/Snake.playground/Contents.swift:362-371 | Away from the apple's line the snake goes straight on while it can, right when only the way ahead is occupied, left when right is as well, and the game ends exactly when all three are |
| `SnakeGame.RightAtTheWall` | Snake/Snake.playground/Contents.swift:362-371 | A game in which the snake meets the wall with both sides free and turns right |
| `SnakeGame.AppleTickMovesOnce` | Snake/Snake.playground/Contents.swift:326-372 | A tick with a turn towards the apple makes no second move, and ends the game exactly when nothing is free around the new cell |
| `SnakeGame.AppleTurnExactly` | Snake/Snake.playground/Contents.swift:330-354 | A turn towards the apple is made exactly when the last step has brought the head into line with it |
| `SnakeGame.TurnTowardsExactly` | Snake/Snake.playground/Contents.swift:306-315 | From across, the turn heads in the direction asked for; along the line it leads aside |
| `SnakeGame.FirstAppleIsFirst` | Snake/Snake.playground/Contents.swift:283-304 | The next apple is the first draw that is not a cell of the snake |
| `SnakeGame.MovedTo` | Snake/Snake.playground/Contents.swift:143-187 | The head moves one cell in its new heading and every cell of the snake one place on; at the apple the snake keeps its last cell too |
| `SnakeGame.CrossesExactly` | Snake/Snake.playground/Contents.swift:326-372 | In every tick that moves, the head comes to lie on another cell of the snake if and only if the unchecked turn towards the apple enters a cell the snake stays on |
| `SnakeGame.CrossingIsReached` | Snake/Snake.playground/Contents.swift:319-373 | A game, with its draws, in which that happens at the fifth tick |
| `SnakeGame.FreeWayIsClear` | Snake/Snake.playground/Contents.swift:190-236 | A neighbour that reads as free is not a cell the snake stays on, not even where the matrix shows less than the snake |
| `SnakeGame.RedrawShows` | Snake/Snake.playground/Contents.swift:152-179 | Freeing the tail and marking the shifted cells never erases a wall and leaves no stale cell |
| `SnakeGame.FreeWayIsInterior` | Snake/Snake.playground/Contents.swift:190-236 | A neighbour that reads as free is off the border wall |
| `SnakeGame.InvInRange` | Snake/Snake.playground/Contents.swift:190-236 | Every matrix access around the head is in range |
| `SnakeGame.PlayStops` | Snake/Snake.playground/Contents.swift:326-372 | A game that has ended, or searches for an apple cell in vain, stays so |
| `SnakeGame.FirstApple` | Snake/Snake.playground/Contents.swift:283-304 | The chosen cell is one of the draws and not under the snake; none is found only when all draws are |
| `SnakeGame.SnakeField.ShiftBody` | Snake/Snake.playground/Contents.swift:152-163 | The in-place shift from the tail on equals shifting the whole list, and redraws exactly those cells |
| `SnakeGame.SnakeField.MoveHead` | Snake/Snake.playground/Contents.swift:164-179 | The head advances one cell in its heading and is marked |
| `SnakeGame.SnakeField.TurnAndMove` | Snake/Snake.playground/Contents.swift:143-187 | The in-place move is the specified one, growth and new apple included; nothing when the tick's move is spent |
| `SnakeGame.SnakeField.FrontWayIsFree` | Snake/Snake.playground/Contents.swift:190-204 | The tabulated neighbour is the cell ahead |
| `SnakeGame.SnakeField.LeftWayIsFree` | Snake/Snake.playground/Contents.swift:206-220 | The tabulated neighbour is the cell three quarter turns on |
| `SnakeGame.SnakeField.RightWayIsFree` | Snake/Snake.playground/Contents.swift:222-236 | The tabulated neighbour is the cell one quarter turn on |
| `SnakeGame.SnakeField.CheckAppleWay` | Snake/Snake.playground/Contents.swift:306-315 | Turns towards the direction and moves once |
| `SnakeGame.SnakeField.TurnToApple` | Snake/Snake.playground/Contents.swift:330-360 | Makes the apple turn exactly when the snake has just come into line with the apple; the fall-through branches are dead |
| `SnakeGame.SnakeField.TickOnce` | Snake/Snake.playground/Contents.swift:326-372 | One turn of the loop is the specified tick, with the game ending exactly when front, right and left are occupied |
| `SnakeGame.RandomApplePoint` | Snake/Snake.playground/Contents.swift:283-304 | The search loop returns the first draw that is not a cell of the snake |
| `SnakeGame.StartGame` | Snake/Snake.playground/Contents.swift:319-373 | The loop plays exactly the specified game |

## Left out

- RoundTrip: needs an encoding shorter than 2^32 bytes, because the lengths the decoder reads are 32-bit; AcceptedIffTerminated, DecodedIsStable, DecodeEncoded, EncodedConcat, DelimitedRoundTrip and NullTerminatedRoundTrip need the same.
- Encode: needs an encoding shorter than 2^64 bytes, as do the other encoding methods; the wrap-around of `size_t` counters is not modelled.
- ProgramEnds: one way only; behind a walled entrance some walks end and some do not, and `Mazes.EndsSoonOrNever` decides each of them.
- RandomApplePoint: the source draws for ever; here it is cut off at the end of the given draws and reports that it is still searching.
- StartGame: watched for as many ticks as there are lists of draws; randomness is a parameter, as it is in FindEntrance.
- DecodeNoinit: after a failed decode it states the form of the structure and the limit of the stream, not the data that was stored or the bytes that were consumed.
- DecodeStaticField: the test that a member of the structure has the kind its field asks for stands for the C types; for structures typed by their descriptor it never fails.
- Nested structures are copied out of and back into their parent instead of being updated through a pointer.
- Storage nothing reads is not represented: array entries past the count, an unselected union, string bytes past the NUL; as strings are kept up to their NUL, the encoder's search for it is not modelled.
- Addresses appear in the iterator only; structures are sequences of members, and `FieldIters.SlotsAreMemory` shows that the members of one struct do not overlap. That a nested struct fits its parent's member is taken from the C compiler.
- Pointer fields and their release (with it the failure of a oneof whose old tag no field has), callbacks, extensions, custom streams, and the build variants `PB_BUFFER_ONLY`, `PB_WITHOUT_64BIT`, `PB_FIELD_16BIT` and the one-byte default.
- Repeated fields of fixed count, and a submessage descriptor that is a null pointer.
- `pb_decode_delimited_noinit`, which differs from the delimited form only in not initialising.
- The texts of error messages; every failure is one and the same.
- Printing, delays and emoji in the two games.
- The other applications of the repository: user interfaces, networking, storage and formatting.
