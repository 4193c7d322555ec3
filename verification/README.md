# libamqpp wire stack: a Dafny model

A model of the AMQP 0-9-1 wire stack of libamqpp, from single bytes up to the asynchronous connection
manager, with proofs of what the code guarantees and of exactly where it does not. Each layer has two
forms. The imperative one follows the C++ step by step: stream cursors, loops, the builder's and the manager's
fields, the shared header buffer, sizes accumulated in 32 bits. It is proved equal to a functional
description, and the theorems are about that description.

| files | what they model |
|---|---|
| `Bytes`, `Bits`, `Streams`, `Wireformat` | bytes and integers, bit fields, byte swaps, streams with error bits, strings |
| `FieldTable`, `FloatBits`, `TableCodec`, `TableStreams`, `TableTheorems` | the recursive field-table codec |
| `MethodCodec`, `MethodStreams`, `Properties`, `PropertyStreams` | the code the generator emits, over an arbitrary schema |
| `Framing`, `FrameObjects` | frames, writer and builder |
| `WireBytes` | the wire format byte by byte |
| `UnwrittenTables`, `Unwritten`, `EndToEnd` | payload bytes that are never written, and the way from methods to a stream and back |
| `WritePump`, `Connection`, `ConnectionRuns`, `ConnectionClosing`, `ConnectionWrites`, `ConnectionFates`, `ConnectionManager` | the connection manager as a step machine, what holds over its runs, and its callbacks as methods |

`dafny verify dfyconfig.toml` checks everything.

## Where the code does not do what surrounds it suggests

The model keeps the code as it is. For each of these there is a lemma saying exactly when the promise holds.

* Sizes against bytes: a decimal is counted as `sizeof(pair)` (8) but takes 5 bytes, a byte array is counted
  with a length it is not written with, an array is counted without the length it is written with. In all,
  bytes + 3 per decimal + 4 per byte array = size + 4 per array (`AccountValue`), so the length prefix is right
  if and only if that surplus vanishes modulo 2^32 (`PrefixExactIff`).
* A table is read back as it was written if and only if it holds, at any depth, no decimal, no array, no byte
  array and no double other than positive zero, and fits in 2^32 bytes (`TableRoundTripIff`).
* The array reader never returns: its loop ends only by an exception (`ArrayNeverDecodes`).
* A double is decoded through a float pointer; it survives if and only if it is positive zero
  (`DoubleSurvivesIffZero`).
* The method setters reject short strings with an embedded NUL, on reading too; so a method survives if and only
  if it has none and its tables do (`MethodRoundTripIff`).
* A frame is built in a buffer of the computed size, and bytes the method does not reach are whatever the
  allocation left there. A method arrives whatever they hold if and only if it fits a frame and survives
  (`AlwaysReceivedIff`, and `StreamRoundTripIff` for sequences on one stream). One that does not survive can still
  arrive by chance of those bytes (`ReceivedByChance`).
* A table property counts as set when it is empty; every property given to the writer arrives if and only if no
  table property has entries (`GivenArriveIff`).
* The size of a content header misses the class id, and counts `sizeof(std::string)` (32) for a long string
  (`SizeMissesClassId`).
* Whether a write is under way is decided from the queue alone, which has been emptied by then: any number of
  writes can be in flight (`NoBoundAsWritten`), and a frame can go out under the header of another one. On every
  run a write is sure to put its own frame on the wire if and only if every frame started since has the same
  header (`HeaderOverwritten`); in every state all writes are, if and only if every frame submitted has the
  header of all writes then in flight (`HeadersCleanIff`, `CleanRunsIff` for the manager). There is at most one
  write at a time if and only if nothing is submitted during a write (`OneAtATimeIffNeverBusy`). With a guard
  that looks at the current frame too, everything the pump is for holds on every run of the pump and of the
  manager (`IntendedPumpIsOrderly`, `IntendedRunsWriteCleanly`).
* A dropped socket fails a read and every write in flight, and each failure runs a closing pass over the
  channels. A handler can be closed only once. The first pass calls each live handler once; a later one ends in
  an exception on the I/O thread if and only if a handler closed before is still there (`SocketErrorsOverRuns`).
  One open channel whose first write is in flight is enough (`SecondErrorEscapes`).
* After the out-of-range case of `dispatch_frame` the channel vector is indexed all the same. Over any run that happens
  if and only if the last complete frame received is for a channel never opened and is not a method frame that fails
  to decode (`OutOfRangeRuns`); eight bytes after the start are enough (`OutOfRangeReachable`).

Sections 4.2.3 (frames), 4.2.4 and 4.2.5 (methods, bits, strings, tables) of AMQP 0-9-1 describe the
format. Section 4.2.6.1 numbers property flags from the high-order bit; the generated `std::bitset` starts
at the low-order one, and the model follows the code.

## Assumptions

A little-endian host with `sizeof(std::pair<uint8_t, int32_t>) == 8` and `sizeof(std::string) == 32`; 32-bit `int`.
Method ids of the channel class (20: open 10, close 40, close-ok 41) are those of AMQP 0-9-1; the JSON
specification the generator reads is not part of this model, and the schema is arbitrary otherwise. A thrown
exception is `Err`, `None` or a stopped status.

## Model

| member | source | states |
|---|---|---|
| Bits.GetAfterSet | src/detail/bitset.h:13-28 | after setting one position it reads as set, and every other position reads as before |
| Bits.FoldRecovers | src/detail/bitset.h:13-28 | after any sequence of sets each position reads as its last write, or false if never written |
| Bits.AnyOrderRecovers | src/detail/bitset.h:13-28 | bits written to distinct positions, at most 31 of them, are all recovered whatever the order of the writes |
| Bits.SwapIsBigEndian | src/detail/byteswap.h:20-64 | the mask-and-shift swap of an n-byte integer, stored low byte first, is its big-endian encoding |
| Bits.SwapInvolution16 | src/detail/byteswap.h:20-32 | swapping 16 bits twice gives the value back, within 16 bits |
| Bits.SwapInvolution32 | src/detail/byteswap.h:34-46 | the same at 32 bits |
| Bits.SwapInvolution64 | src/detail/byteswap.h:48-64 | the same at 64 bits |
| Bytes.ReadUintIff | src/detail/wireformat.h:33-105 | a reader returns n and the rest exactly when the input is the big-endian encoding of n, in range, followed by that rest |
| Streams.IStream.Read | src/detail/wireformat.h:33-42 | succeeds iff the stream is good and n bytes are left; then it returns those and keeps what follows |
| Streams.IStream.AtEnd | src/detail/wireformat.cpp:238-238 | peek finds the end iff nothing is left, and otherwise changes nothing |
| Wireformat.WriteUint16 | src/detail/wireformat.h:44-52 | the swapped store appends the two big-endian bytes |
| Wireformat.WriteUint32 | src/detail/wireformat.h:65-73 | the swapped store appends the four big-endian bytes |
| Wireformat.WriteUint64 | src/detail/wireformat.h:86-94 | the swapped store appends the eight big-endian bytes |
| Wireformat.SwapOfStored | src/detail/wireformat.h:54-63 | bytes loaded into a host integer and swapped are the big-endian value |
| Wireformat.ReadUint8 | src/detail/wireformat.h:33-42 | the next byte, or an exception exactly on an empty or failed stream |
| Wireformat.ReadUint16 | src/detail/wireformat.h:54-63 | the big-endian value of the next two bytes, or an exception exactly when fewer are left |
| Wireformat.ReadUint32 | src/detail/wireformat.h:75-84 | the same for four bytes |
| Wireformat.ReadUint64 | src/detail/wireformat.h:96-105 | the same for eight bytes |
| Wireformat.ShortStringIff | src/detail/wireformat.cpp:19-52 | a short string decodes exactly from its own encoding: both directions, any suffix |
| Wireformat.WriteShortString | src/detail/wireformat.cpp:19-34 | fails iff longer than 255 bytes, and then writes nothing |
| Wireformat.ReadShortString | src/detail/wireformat.cpp:36-52 | agrees with the one-slice decoding in result, failure and cursor |
| Wireformat.LongStringIff | src/detail/wireformat.cpp:54-97 | a long string decodes exactly from its own encoding: both directions, any suffix |
| Wireformat.WriteLongString | src/detail/wireformat.cpp:54-67 | fails iff the length needs more than 32 bits, and then writes nothing |
| Wireformat.ReadLongString | src/detail/wireformat.cpp:69-97 | the 1024-byte loop returns the next `len` bytes as one slice or fails when fewer remain, for every 32-bit length and without overflow of its counters |
| FieldTable.LessTotal | src/table.cpp:13-16 | the key order is total, antisymmetric and irreflexive |
| FieldTable.LessIff | src/table.h:28-28 | one key comes before another iff, where they part, it ends or has the smaller byte |
| FieldTable.InsertFirstWins | src/table.cpp:13-16 | inserting keeps key order, and looks up like appending: an existing key keeps its value |
| FieldTable.InsertAllFirstWins | src/detail/wireformat.cpp:234-243 | inserting a whole list gives a sorted map in which every key has its first value |
| FieldTable.InsertAllSorted | src/detail/wireformat.cpp:101-108 | inserting entries that come in map order reproduces them unchanged |
| FieldTable.SortedUnique | src/table.cpp:13-16 | two sorted tables with the same lookups are equal: the normal form is unique |
| FloatBits.DoubleSurvivesIffZero | src/detail/wireformat.cpp:289-294 | widening the low half of a double's bits gives the double back iff it is positive zero |
| FloatBits.WidenKeepsNumber | src/detail/wireformat.cpp:289-294 | the float read is converted to the double of the same number: sign kept, exponents equal less their biases, fraction shifted, subnormals scaled up, NaNs quiet |
| FloatBits.LastByteMatters | src/detail/wireformat.cpp:289-294 | what is decoded still depends on the last byte on the wire, subnormals and NaNs included |
| TableCodec.DecodeValue | src/detail/wireformat.cpp:252-345 | the mutually recursive reader terminates on every byte string, and a value takes at least one byte |
| TableCodec.DecodeEntry | src/detail/wireformat.cpp:245-250 | an entry takes at least two bytes |
| TableCodec.DecodeDecimal | src/detail/wireformat.cpp:295-300 | a decimal takes exactly five bytes after its tag |
| WireBytes.ValueBytes | src/detail/wireformat.cpp:121-227 | the bytes of each of the fourteen types: its letter, then its two's complement or bit pattern, most significant byte first |
| WireBytes.TableBytes | src/detail/wireformat.cpp:99-119 | a table is four bytes of length and per entry a key length, the key and the value |
| WireBytes.ReadsLetter1 | src/detail/wireformat.cpp:258-267 | after 't' any byte but 0 is true, after 'b' bytes from 128 on are negative |
| WireBytes.ReadsLetter2 | src/detail/wireformat.cpp:268-272 | after 'U' two bytes, signed |
| WireBytes.ReadsLetter4 | src/detail/wireformat.cpp:273-288 | after 'I' four bytes, signed; after 'f' four bytes of bit pattern |
| WireBytes.ReadsLetter8 | src/detail/wireformat.cpp:278-321 | after 'L' eight bytes, signed; after 'T' unsigned; after 'd' the low half, widened |
| WireBytes.ReadsDecimal | src/detail/wireformat.cpp:295-300 | after 'D' a magnitude and four signed bytes |
| WireBytes.ReadsString | src/detail/wireformat.cpp:301-341 | after 'S' a string and after 'x' a byte array, both with a length |
| WireBytes.ReadsOther | src/detail/wireformat.cpp:306-344 | 'V' stands alone, 'F' goes on as a table, 'A' never decodes, no other letter does |
| WireBytes.KeyLimit | src/table_entry.cpp:295-320 | an entry is made iff its key has at most 128 bytes |
| TableStreams.DataSize | src/table_entry.cpp:52-96 | the visitor's 32-bit result is the unbounded size modulo 2^32, at every nesting depth |
| TableStreams.ValueSize | src/table_entry.cpp:344-349 | the same with the tag byte |
| TableStreams.ArraySize | src/table_entry.cpp:71-80 | the wrapping loop adds up the element sizes modulo 2^32 and no length prefix |
| TableStreams.EntrySize | src/table_entry.cpp:337-342 | key and value sizes modulo 2^32 |
| TableStreams.TableSize | src/table.cpp:31-40 | the wrapping loop is four plus the entry sizes modulo 2^32 |
| TableTheorems.AccountValue | src/table_entry.cpp:52-96 | bytes written + 3 per decimal + 4 per byte array = computed size + 4 per array, at every depth |
| TableTheorems.AccountElems | src/detail/wireformat.cpp:183-199 | the same for the elements of an array |
| TableTheorems.AccountEntries | src/detail/wireformat.cpp:99-113 | the same for the entries of a table |
| TableTheorems.PrefixExactIff | src/detail/wireformat.cpp:99-113 | the length prefix equals the bytes that follow iff they are fewer than 2^32 and the surplus is 0 modulo 2^32 |
| TableTheorems.PlainPrefixes | src/detail/wireformat.cpp:207-211 | without the three kinds every prefix at every depth equals the bytes it announces |
| TableTheorems.PlainPrefixesEntries | src/detail/wireformat.cpp:99-113 | the same from a table's entries down |
| TableTheorems.DecimalSpoilsPrefix | src/detail/wireformat.cpp:170-175 | a table of one decimal announces three bytes too many |
| TableTheorems.ElemsNeverDecode | src/detail/wireformat.cpp:306-316 | on no byte string does the array loop end normally |
| TableTheorems.ArrayNeverDecodes | src/detail/wireformat.cpp:306-316 | tag 'A' never decodes |
| TableTheorems.DecodedValue | src/detail/wireformat.cpp:252-345 | what decodes has no arrays, is sorted at every level, and took at least its own encoding plus 4 per byte array |
| TableTheorems.DecodedTable | src/detail/wireformat.cpp:234-243 | the same for tables, with the prefix |
| TableTheorems.TableConsumesDeclaredLength | src/detail/wireformat.cpp:234-243 | a table that decodes has consumed exactly 4 bytes plus its declared length |
| TableTheorems.DegradeFixed | src/detail/wireformat.cpp:283-294 | a value is unchanged by the degradation iff its doubles are positive zeros |
| TableTheorems.ReadAfterWrite | src/detail/wireformat.cpp:121-345 | a value without the three kinds reads back degraded only in its doubles, cursor exactly at the suffix |
| TableTheorems.ReadTableAfterWrite | src/detail/wireformat.cpp:99-250 | the same for a whole table |
| TableTheorems.TableRoundTripIff | src/detail/wireformat.cpp:99-345 | for every table and suffix, reading the written bytes returns the table and the suffix iff it holds no decimal, array, byte array or nonzero double and is below 2^32 bytes |
| TableTheorems.OnlyPlainTablesSurvive | src/detail/wireformat.cpp:99-345 | no table with one of the three kinds survives, even where the surplus wraps round |
| TableTheorems.ExactTablesPrefixFree | src/detail/wireformat.cpp:99-113 | the encoding is injective and prefix-free on exact tables |
| TableTheorems.DecodingNormalises | src/detail/wireformat.cpp:234-250 | a decoded table is sorted with the first value of each key on the wire, re-encodes to no more bytes, and reads back as itself iff it has no decimal, byte array or nonzero double |
| TableStreams.WriteTable | src/detail/wireformat.cpp:99-113 | writes prefix and entries in map order; fails iff some long string at any depth is too long |
| TableStreams.PrefixWritten | src/detail/wireformat.cpp:101-101 | the wrapped size less four, written in four bytes, is the prefix of the unbounded size |
| TableStreams.WriteTableEntry | src/detail/wireformat.cpp:115-119 | appends exactly the entry's encoding |
| TableStreams.WriteTableValue | src/detail/wireformat.cpp:121-232 | appends exactly the tagged encoding of each of the fourteen types |
| TableStreams.WriteElems | src/detail/wireformat.cpp:195-198 | appends the elements' encodings in order |
| TableStreams.ReadTable | src/detail/wireformat.cpp:234-243 | the peek loop with map insertion agrees with the specification in result, failure and cursor |
| TableStreams.ReadTableEntry | src/detail/wireformat.cpp:245-250 | the same for an entry; a key over 128 bytes is an exception |
| TableStreams.ReadFieldValue | src/detail/wireformat.cpp:252-345 | the same for a tagged value |
| TableStreams.ReadTagged | src/detail/wireformat.cpp:256-344 | the same for the switch over tags; any other tag is an exception |
| TableStreams.ReadFixed | src/detail/wireformat.cpp:258-294 | the integer types are read at their width and signedness, doubles through a float |
| TableStreams.ReadBytes | src/detail/wireformat.cpp:331-341 | the single raw read returns exactly what the chunked string read would |
| TableStreams.ReadArray | src/detail/wireformat.cpp:306-316 | the loop terminates and never returns a value |
| MethodCodec.GetBitsNumber | src/codegen.py:270-275 | the index of an argument within its maximal run |
| MethodCodec.GetBitsLength | src/codegen.py:259-268 | the length of the maximal run around an argument |
| MethodCodec.FieldBytes | src/codegen.py:277-287 | for every run the generator accepts the field is 1, 2, 4 or 8 bytes wide and holds the whole run |
| WireBytes.FieldBytesLeast | src/codegen.py:277-287 | and no narrower integer would hold the run |
| WireBytes.RunWidth | src/codegen.py:397-445 | a run of at most 8, 16 or 31 bits adds 1, 2 or 4 bytes to what is written and to the size |
| WireBytes.RunBytes | src/codegen.py:397-408 | what is written for a run is the number whose binary digits are its flags, the first lowest; 0 or 1 for one bit |
| MethodCodec.PackRecovers | src/codegen.py:368-408 | every bit of a run is recovered from the field it was packed into |
| MethodCodec.PackFitsBytes | src/codegen.py:397-408 | the packed field fits the integer it is written as |
| MethodCodec.BitFieldReads | src/codegen.py:368-408 | a written bit field reads back as the same number |
| MethodCodec.BitFieldUnpacks | src/codegen.py:368-377 | and unpacks to exactly the run's arguments |
| MethodCodec.RawRoundTripIff | src/codegen.py:379-422 | one argument of any other domain reads back iff it is not a table or an exact one |
| WireBytes.ArgBytes | src/codegen.py:410-422 | the bytes of an argument of each other domain |
| WireBytes.SetterLimits | src/detail/string_utils.h:21-27 | a short string is refused iff it has a NUL or more than 255 bytes |
| MethodCodec.ArgRoundTripIff | src/codegen.py:379-393 | through the setter: and iff a short string has no NUL |
| MethodCodec.ArgConsumes | src/codegen.py:379-393 | a reader consumes at least as many bytes as its result is written with |
| MethodCodec.ArgsRoundTripIff | src/codegen.py:368-422 | for every argument list, reading after writing returns the same arguments and suffix iff each one survives |
| MethodCodec.ArgsConsume | src/codegen.py:379-393 | whatever an argument list decodes to encodes to no more bytes than were consumed |
| MethodCodec.AccountArgs | src/codegen.py:424-455 | bytes written plus the surplus of the tables is the computed size |
| MethodStreams.MethodRoundTripIff | src/codegen.py:289-309 | a method dispatched on its ids reads back whole iff its arguments survive |
| MethodStreams.DecodedArgs | src/codegen.py:379-393 | arguments that decode have their types, and survive being written iff their tables are exact |
| MethodStreams.MethodNormalises | src/codegen.py:289-309 | any bytes that decode to a method re-encode to no more bytes than were consumed, and the method reads back as itself iff its tables are exact |
| MethodStreams.MethodSizeIff | src/codegen.py:424-455 | the 32-bit size equals the bytes written iff they are fewer than 2^32 and the tables' surplus is 0 modulo 2^32 |
| MethodStreams.SurvivorsHaveNoSurplus | src/codegen.py:424-455 | arguments that survive have no surplus |
| MethodStreams.GetSerializedSize | src/codegen.py:424-455 | the wrapping accumulation, one field per run, is the size modulo 2^32 |
| MethodStreams.BitSize | src/codegen.py:439-445 | a run is counted once, at its last bit |
| MethodStreams.WriteArg | src/codegen.py:416-421 | appends the argument's encoding; fails iff it is a table with an over-long string |
| MethodStreams.WriteBit | src/codegen.py:397-408 | one field per maximal run, zeroed at its first bit, written at its last; nothing written in between |
| MethodStreams.WriteArgs | src/codegen.py:416-421 | the argument loop writes exactly the encoding of the list |
| MethodStreams.WriteMethod | src/codegen.py:410-422 | ids, then the arguments |
| WireBytes.MethodBytes | src/codegen.py:410-422 | two bytes of class id, two of method id, then the arguments |
| MethodStreams.ReadBit | src/codegen.py:368-377 | one field is read per maximal run, at its first bit; at later bits the stream and the field are left alone |
| MethodStreams.ReadArg | src/codegen.py:387-391 | value read and setter together agree with the specification |
| MethodStreams.ReadArgs | src/codegen.py:384-391 | the argument loop agrees with the recursive decoding in result, failure and cursor |
| MethodStreams.ReadMethod | src/codegen.py:289-309 | the dispatch on both ids agrees with the specification; unknown ids are exceptions |
| Properties.RefreshedIsSet | src/codegen.py:486-490 | after the refresh each flag, table or not, says what is_set() says |
| Properties.TablePropertyIff | src/codegen.py:109-115 | after the refresh a table field is flagged iff it is empty, any other field iff its setter set it |
| Properties.FieldArrivesIff | src/codegen.py:468-499 | reading what was written gives an empty table for an empty one and nothing for one with entries; any other field iff it is set |
| WireBytes.ContentHeaderBytes | src/codegen.py:483-500 | class id, weight, body size, flag bits with the first position lowest, and the fields |
| WireBytes.OneTableBytes | src/codegen.py:483-500 | with a single table field the header ends in 00 01 00 00 00 00 when it is empty, and in 00 00 when it is not |
| Properties.FlagsRoundTrip | src/codegen.py:473-494 | the flag set survives its 16-bit number |
| Properties.FieldsRoundTrip | src/codegen.py:468-499 | reading the written fields under the refreshed flags restores exactly the set ones, cursor at the suffix |
| Properties.ContentRoundTrip | src/codegen.py:311-324 | weight, body size, flag set and every set field are restored, for every list of at most 16 fields at distinct positions |
| Properties.GivenArriveIff | src/codegen.py:109-115 | reading what was written, every given property arrives iff no table property has entries |
| Properties.SizeMissesClassId | src/codegen.py:502-516 | bytes written = computed size + 2 + what sizeof misses of the long strings |
| PropertyStreams.PropertySet.Write | src/codegen.py:483-500 | refreshes the table flags, changes nothing else of the object and appends the content header |
| PropertyStreams.PropertySet.RefreshFlags | src/codegen.py:486-490 | the in-place loop over table fields yields the refreshed flag set |
| PropertyStreams.PropertySet.WriteFields | src/codegen.py:496-499 | appends the encodings of the set fields in order |
| PropertyStreams.PropertySet.GetSerializedSize | src/codegen.py:502-516 | the wrapping sum over the set fields is the size modulo 2^32 |
| PropertyStreams.ReadProperties | src/codegen.py:311-324 | the dispatch on the class id agrees with the specification |
| PropertyStreams.ReadFields | src/codegen.py:475-478 | the field loop agrees with the recursive decoding in result, failure and cursor |
| Framing.ParseFrame | src/detail/frame_builder.cpp:66-113 | a frame takes at least eight bytes |
| WireBytes.FrameBytes | src/detail/frame_writer.cpp:19-40 | a frame is its type code (1, 2, 3 or 8), channel, payload size, payload and octet 206 |
| Framing.ParseFrameIff | src/detail/frame_builder.cpp:66-113 | a frame is parsed off a stream iff its payload is below 2^32 bytes and the stream starts with its print |
| Framing.ParseStreamIff | src/detail/frame_writer.cpp:19-40 | parsing is the inverse of printing on streams of frames, both ways, empty and one-byte payloads included |
| Framing.ParseAllAfterPrint | src/detail/connection_manager.cpp:28-38 | printed frames are parsed in order whatever follows them |
| FrameObjects.FrameWriter.GetSequence | src/detail/frame_writer.cpp:19-40 | overwrites the shared header buffer so that header, payload and footer gather to the frame's print |
| FrameObjects.FrameBuilder.Reset | src/detail/frame_builder.cpp:25-32 | from any phase back to the one before a header, with both buffers and the channel zero |
| FrameObjects.FrameBuilder.ValidateHeader | src/detail/frame_builder.cpp:66-92 | throws iff the eight bytes do not parse; once valid it does nothing more |
| FrameObjects.FrameBuilder.IsBodyReadRequired | src/detail/frame_builder.cpp:39-51 | true iff the header parses with a nonzero size |
| FrameObjects.FrameBuilder.FillBody | src/detail/frame_builder.cpp:53-58 | the payload from its second byte and the end octet are filled in place, the first byte kept |
| FrameObjects.FrameBuilder.CreateFrame | src/detail/frame_builder.cpp:60-113 | the frame of the validated fields, or which of the two exceptions |
| FrameObjects.ReadFrame | src/detail/connection_manager.cpp:28-38 | one round of the builder on a stream agrees with the parser, from any state it was left in |
| EndToEnd.CreateFromMethod | src/detail/frame.cpp:42-51 | throws iff a string is too long or the bytes overrun the buffer; else the payload has the computed size and starts with the bytes written, the rest left as allocated |
| EndToEnd.BufferFilledExactly | src/detail/frame.cpp:42-51 | for arguments that survive the buffer has no gap and no overflow |
| EndToEnd.CreateSurvivor | src/detail/frame.cpp:42-51 | such a method never throws and its payload is its encoding |
| UnwrittenTables.ValueExposes | src/detail/wireformat.cpp:252-345 | a value that is cut off can be completed so that the entry loop fails or the value differs, unless it is a table that ends with the unwritten bytes |
| UnwrittenTables.ForcedIsLight | src/detail/wireformat.cpp:234-250 | entries that give the same table whatever the unwritten bytes after them hold weigh more than that table |
| Unwritten.ForcedArgs | src/codegen.py:379-393 | arguments that come back whatever the unwritten bytes hold are written in full, or encode to less than what is written |
| Unwritten.AlwaysComesBackIff | src/codegen.py:289-309 | for every number of unwritten bytes, a method comes back from its encoding whatever they hold iff its arguments survive |
| EndToEnd.ReceiveIff | src/detail/frame.cpp:42-51 | a frame that may be built has no unwritten byte and is received as sent iff the method survives |
| EndToEnd.AlwaysReceivedIff | src/detail/frame.cpp:42-51 | a frame can be built and every frame that may be built is received as sent, iff the method fits a frame and survives |
| EndToEnd.ReceivedByChance | src/detail/frame.cpp:44-44 | a table with one decimal does not survive, yet arrives when the three unwritten bytes repeat its key |
| EndToEnd.ReceiveAllIff | src/codegen.py:289-309 | a sequence of frames is received as a sequence of methods iff each frame is received as its method |
| EndToEnd.StreamRoundTripIff | src/detail/frame_writer.cpp:19-40 | frames can be built for a sequence of methods on any channels, and whatever is built and put on one stream is received as that sequence with no byte left, iff all fit a frame and survive |
| EndToEnd.ReadMethodFrame | src/codegen.py:289-309 | method::read on a payload agrees with the specification, and other frame types give no method |
| EndToEnd.ReceiveMethods | src/detail/connection_manager.cpp:28-38 | the builder looped over a whole stream, with method::read on every payload, gives exactly what the specification of a received stream says |
| EndToEnd.NothingLeftOver | src/codegen.py:379-393 | a method that decodes to itself uses the whole payload |
| WritePump.IntendedPumpIsOrderly | src/detail/connection_manager.cpp:153-195 | with the guard that also tests the current frame: on every run one write at a time, its header intact, frames on the wire whole and in submission order |
| WritePump.WrittenPumpIsEager | src/detail/connection_manager.cpp:153-195 | as written: after every callback of every run the queue is empty and in flight = starts - completions - failures |
| WritePump.NoBoundAsWritten | src/detail/connection_manager.cpp:153-171 | as written: n submissions in a row put n writes in flight, and under each the header buffer takes on the headers of all later ones |
| WritePump.HeaderOverwritten | src/detail/frame_writer.cpp:19-40 | on every run, with either guard, a write is sure to go out as its own frame, whenever the socket reads the header buffer, iff every frame started since has the same header |
| WritePump.SureIffOwn | src/detail/frame_writer.cpp:19-40 | that is so iff the buffer has held nothing but that frame's header during the write |
| WritePump.HeaderInARow | src/detail/connection_manager.cpp:153-171 | for frames submitted in a row: frame k is sure to go out as itself iff every later one has its header |
| WritePump.HeadersCleanIff | src/detail/connection_manager.cpp:153-195 | as written, over every run: in every state every write is sure to go out as its own frame iff every frame submitted has the header of all writes then in flight |
| WritePump.CleanWire | src/detail/connection_manager.cpp:173-195 | then the wire is the print of the completed frames |
| WritePump.AcceptedWhileOpen | src/detail/connection_manager.cpp:153-172 | on every run the frames accepted are those submitted, in order, up to the moment the pump closes and none after |
| WritePump.OneAtATimeIffNeverBusy | src/detail/connection_manager.cpp:157-163 | as written: at most one write at a time over a run iff nothing is submitted during a write |
| WritePump.NeverBusyIsIntended | src/detail/connection_manager.cpp:153-195 | on such runs the written pump is the intended one, state for state |
| WritePump.ClosedStartsNothing | src/detail/connection_manager.cpp:153-155 | once closed no run starts or accepts a frame |
| ConnectionRuns.ReadLoopRefinesParse | src/detail/connection_manager.cpp:81-126 | over every run the frames dispatched are exactly the complete frames of the bytes received, and one read is outstanding until an error or exception |
| ConnectionRuns.DispatchedAreParsed | src/detail/connection_manager.cpp:90-126 | that invariant pins the dispatched frames to the parse of the bytes |
| ConnectionRuns.StartedReads | src/detail/connection_manager.cpp:51-58 | the read loop starts in it |
| ConnectionClosing.StartedIsSafe | src/detail/connection_manager.cpp:51-58 | and with what routing, disposal and closing keep over runs |
| ConnectionRuns.RoutingIsSafe | src/detail/channel_impl.cpp:120-122 | over every run slot i holds handler i, slots are never removed or reused, at most 65536 exist, and a handler only gets frames of its own channel |
| ConnectionRuns.NoFrameIsLost | src/detail/connection_manager.cpp:128-151 | over every run each dispatched frame goes to a handler or is treated as dead: once, and not both |
| ConnectionRuns.OutOfRangeIff | src/detail/connection_manager.cpp:131-135 | one dispatch indexes out of range iff the channel was never opened and the dead-frame handler did not throw first |
| ConnectionRuns.OutOfRangeRuns | src/detail/connection_manager.cpp:128-151 | over every run the vector is indexed out of range iff the last complete frame of the bytes received is for a channel never opened and is not an undecodable method frame; all earlier frames were in range |
| ConnectionRuns.HeartbeatStrays | src/detail/connection_manager.cpp:131-135 | in every state that waits for a header a heartbeat on any channel not yet opened does it |
| ConnectionRuns.OutOfRangeReachable | src/detail/connection_manager.cpp:90-112 | a run of one event, eight bytes after the start, ends there |
| ConnectionFates.DispatchFate | src/detail/connection_manager.cpp:128-151 | a dispatch goes on to the next header iff the live handler returns or throws a connection_exception, or a dead slot gets a frame that is no undecodable method |
| ConnectionFates.NextFate | src/detail/connection_manager.cpp:90-126 | how every event leaves the thread: a bad header or end octet, a frame's fate, or a socket error that finds a live handler closed |
| ConnectionFates.NextReading | src/detail/connection_manager.cpp:90-126 | which read every event leaves outstanding: the announced body, the next header, none after an exception or a failed read |
| ConnectionFates.NoReadAfterError | src/detail/connection_manager.cpp:106-126 | over every run, once a read has failed nothing more is received, dispatched or answered |
| ConnectionFates.RunFate | src/detail/connection_manager.cpp:90-126 | over every run all events but the last leave the thread running, and it ends as the last one leaves it |
| ConnectionFates.GoodHeaderIff | src/detail/frame_builder.cpp:66-92 | eight bytes begin a frame iff the first is 1, 2, 3 or 8 and, with size zero, the last is 206 |
| ConnectionFates.FrameIsRead | src/detail/connection_manager.cpp:81-126 | whenever a header is awaited any frame can be received, in one read or two, and is then dispatched |
| ConnectionFates.HeartbeatOnZero | src/detail/channel0.cpp:10-13 | a heartbeat on channel 0 after the start stops the thread, and nothing else can come of it |
| ConnectionRuns.HandleDeadPays | src/detail/connection_manager.cpp:249-263 | the pump accepts one close-ok for a channel.close on a dead slot, only while the connection is open, and nothing for other frames |
| ConnectionRuns.DispatchPays | src/detail/connection_manager.cpp:128-151 | a frame counts as dead, and is answered, iff its slot does not exist or its handler is gone |
| ConnectionRuns.OtherDeadFramesAreDropped | src/detail/connection_manager.cpp:249-263 | any other decodable frame for a dead slot changes nothing |
| ConnectionRuns.ChannelFrames | src/detail/connection_manager.cpp:197-263 | the payloads of the two methods the manager sends are 00 14 00 0A 00 and 00 14 00 29 |
| ConnectionFates.DeadMethodAnswered | src/detail/connection_manager.cpp:249-263 | a decodable method on a dead slot makes the open pump accept one frame iff it is class 20, method 40; the peer receives class 20, method 41, on the same channel |
| ConnectionFates.ClosedByPeer | src/detail/connection_manager.cpp:128-263 | from the start, a channel opened, its handler gone and closed by the peer: the open frame and the close-ok are what is submitted |
| ConnectionClosing.ClosePass | src/detail/connection_manager.cpp:233-244 | a pass ends normally iff no live handler was closed before, and then calls each live one once, in slot order |
| ConnectionClosing.CloseCallsEachLiveHandlerOnce | src/detail/connection_manager.cpp:227-244 | one socket error does so for slots 1 and up, or stops with an exception at a handler closed before |
| ConnectionClosing.CloseMarks | src/detail/connection_manager.cpp:233-244 | a pass closes exactly the handlers it calls, none closed before and none twice |
| ConnectionClosing.NoHandlerIsClosedTwice | src/detail/channel_impl.cpp:184-187 | over every run no handler is closed twice, the closed ones are those called, and none is while the connection is open |
| ConnectionClosing.SocketErrorsOverRuns | src/detail/connection_manager.cpp:227-244 | after every run the first socket error calls each live handler once and the thread goes on; a later one throws iff a handler called before is still live, and else calls the live ones |
| ConnectionClosing.SecondErrorEscapes | src/detail/connection_manager.cpp:173-195 | a channel opened, a failed read and a failed write: the exception escapes |
| ConnectionRuns.ClosedIsAbsorbing | src/detail/connection_manager.cpp:153-231 | after a socket error no run reopens, accepts a frame or starts a write |
| ConnectionManager.RepliesAreReadable | src/detail/connection_manager.cpp:197-263 | the open and close-ok frames the manager builds are received as those methods on the channel they are for |
| ConnectionWrites.WritesDriveThePump | src/detail/connection_manager.cpp:153-195 | every run of the manager takes its pump through a run of the pump machine |
| ConnectionWrites.QuietRunsWriteCleanly | src/detail/connection_manager.cpp:153-195 | if nothing is submitted during a write, then over the whole run the wire is the print of the completed frames in submission order, and the peer parses exactly those |
| ConnectionWrites.IntendedRunsWriteCleanly | src/detail/connection_manager.cpp:153-195 | with the guard that also tests the current frame, every run of the manager has one write at a time and a wire that is the completed frames in submission order |
| ConnectionWrites.CleanRunsIff | src/detail/connection_manager.cpp:153-195 | as written, over every run of the manager: in every state every write is sure to go out as its own frame iff whatever is submitted has the header of all writes then in flight; then the peer parses exactly the completed frames |
| ConnectionWrites.StartedRunsCleanIff | src/detail/connection_manager.cpp:51-58 | that for runs from the start, and the exact condition write by write |
| ConnectionWrites.DeadChannelsAreAnswered | src/detail/connection_manager.cpp:128-263 | over every run the frames the pump accepts are, in order and while the connection is open, an interleaving of exactly the application's frames, one open frame per new channel, and for every class 20, method 40 frame that found no live handler the close-ok 00 14 00 29 on its channel |
| ConnectionWrites.RunCompletes | src/detail/connection_manager.cpp:90-126 | the frames a run completes are the ones dispatched, and those that found no live handler the ones treated as dead |
| ConnectionManager.Manager.constructor | src/detail/connection_manager.cpp:51-58 | the manager starts in the initial state of the step machine |
| ConnectionManager.Manager.BeginWriteFrame | src/detail/connection_manager.cpp:153-171 | is one submission of the step machine, shared header buffer included |
| ConnectionManager.Manager.OnWriteFrame | src/detail/connection_manager.cpp:173-195 | is one write completion or failure, for whatever header the socket has found |
| ConnectionManager.Manager.OnSocketClose | src/detail/connection_manager.cpp:227-231 | is the closing transition |
| ConnectionManager.Manager.CloseChannels | src/detail/connection_manager.cpp:233-244 | the iterator loop from slot 1 performs one closing pass, stopping at an exception |
| ConnectionManager.Manager.CreateNextChannel | src/detail/connection_manager.cpp:214-225 | the next id is the number of slots; at 65536 it throws and changes nothing |
| ConnectionFates.OpensChannel | src/detail/connection_manager.cpp:197-225 | below 65536 slots a new channel gets the next one, a live handler and an open frame; from there on nothing changes |
| ConnectionManager.Manager.StartOpenChannel | src/detail/connection_manager.cpp:197-212 | is one channel-open transition: new slot and an open frame for its id |
| ConnectionManager.Manager.HandleDeadChannelFrame | src/detail/connection_manager.cpp:249-263 | is the dead-frame transition, close-ok included |
| ConnectionManager.Manager.DispatchFrame | src/detail/connection_manager.cpp:128-151 | is the dispatch transition, without the missing return |
| ConnectionManager.Manager.OnFrameHeaderRead | src/detail/connection_manager.cpp:90-112 | is the header-read transition; the builder's phase always matches the pending read |
| ConnectionManager.Manager.OnFrameBodyRead | src/detail/connection_manager.cpp:114-126 | is the body-read transition; validate_body never finds the builder without a header |
| ConnectionManager.Manager.OnReadError | src/detail/connection_manager.cpp:108-125 | is the read-error transition |

## Left out

- Streams.OStream: write failures other than an over-long string and a full frame buffer are not modelled.
- Field tables are values, sorted sequences of entries built by insert; changing one in place through the reference
  `get_map()` returns is not captured.
- MethodCodec.ArgsRoundTripIff: bit runs are at most 31 long, because the shifts in bitset.h are on a 32-bit int;
  the generator's 64-bit case is left out with them.
- PropertyStreams.ReadProperties: a field whose flag is clear is `None`, where the C++ object keeps an uninitialised
  or default value; bit properties are left out, as the generator has no reader for them.
- Setters, getters, clearers, default values and printing of the generated classes: easy members.
- ConnectionManager.Manager.OnWriteFrame: the socket reads the seven header bytes together, at any one moment of the
  write, and the bytes of two writes in flight do not interleave; releasing the payload of an earlier frame when the
  current-frame pointer moves on is not modelled.
- FrameObjects.FrameBuilder.CreateFrame: the frame gets a copy of the body, where the C++ shares the buffer the
  builder drops at its next reset.
- Sockets, threads, the resolver and the handshake: each completion is a step that can come at any time, with any
  bytes.
- Promises, futures and the channel RPC layer: a handler is a slot that can die, and how its `process_frame` ends is
  a parameter of the step (channel 0 always throws).
- `closing_state` is never entered by the code; the `post` of work from other threads is the submission step itself.
- SASL, memory allocation failure, reference counts beyond alive or dead, compiler intrinsics (the mask-and-shift
  form of the byte swap is the one modelled), and big-endian hosts, where the swap is the identity.
