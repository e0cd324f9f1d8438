# The OMNM message buffer

OMNM is a message payload for OpenMAMA: a growable byte array that holds a three-byte header (payload
type, wire version, number of further header bytes), the further header bytes, and then self-describing
fields one after the other. A field is a type byte, a two-byte fid, a NUL-terminated name, a four-byte
length for the types that carry one, and data.

This project models the mutable message, its cursor, the merge of one message into another, and the
nested encodings (sub-messages, vectors of strings, vectors of messages), and proves that the byte
surgery follows a simple abstract message: an ordered list of fields looked up by first match.

| file | contents |
|---|---|
| `Bytes.dfy` | octets, C strings, little-endian integers |
| `FieldTypes.dfy` | the field types and the writer's, parser's and cast check's switches |
| `Wire.dfy` | writer and parser of fields and field lists, and exactly when they are inverse |
| `Machine.dfy` | the abstract message: lookup, append, update, runs, frame laws |
| `Memory.dfy` | memcpy, memmove, strlen, strcmp and buffer growth over arrays |
| `Messages.dfy` | class `Payload` (the buffer) and class `Cursor` (the parser's state machine) |
| `Runs.dfy` | whole runs of operations, and updates interleaved with iteration |
| `Nested.dfy` | sub-messages and message trees of any depth |
| `Vectors.dfy` | vectors of strings and of messages |
| `Merge.dfy` | apply and the fold it refines |
| `MergeNames.dfy` | exactly when the name apply carries from field to field matters |
| `MergeAlgebra.dfy` | idempotence and associativity of apply |
| `Integers.dfy` | what an added integer reads back as |
| `Print.dfy` | toString and the space it takes |

Pointers are offsets into the buffer. An array's `Length` is the capacity the source keeps in a separate
field. `Payload.Valid()` says that the cached header agrees with the bytes and that the live bytes after
the header read as well-formed fields; `Payload.Abs()` is the abstract message they read as. Class
methods are proved against functions of `Abs()`; the lemmas are about those functions.

What the proofs take as given:

- Integers are copied in the host's byte order, taken to be little-endian; `char` is signed, a boolean is
  one unsigned byte, and the price and date-time structures have natural alignment (24 and 40 bytes).
- The numbers of the field type enumeration belong to the middleware. `TypeCode` numbers the types in
  declaration order; only distinctness is used.
- `allocateBufferMemory` belongs to the middleware. It is modelled as: at least the size asked for, never
  less than before, old contents kept, possibly a new object. It is taken to succeed.
- A resizing update passes the tail through a signed 32-bit int and moves a uint32 number of bytes, so
  an update that resizes a field asks for fewer than 2^31 live bytes, alone or inside a sub-message,
  vector or apply; `Messages.ResizedTailExactly` shows the bound is exact.
- Names and strings handed in are C strings, names are shorter than 2^31 - 1 bytes (the source keeps a
  name's size in an int), and no object in memory exceeds 2^62 bytes. Data need not have the shape its
  type demands: the contracts of append and update say exactly when the message can still be read
  afterwards.

Where the code does not do what its interface suggests, the code is kept, the exact condition is
proved, and a concrete input shows the failure:

- A field of type UNKNOWN is written with a length and read without one (`Wire.RoundTripExactly`, with
  an example in `Wire.UnknownLosesItsData`).
- A cast between numeric types of different widths corrupts the message, because the type byte is not
  rewritten (`Machine.UpdateReadsBackExactly`, with an example in `Machine.WideningCastBreaksMessage`).
- A resize refreshes at most the handle it goes through: handles of later fields point at the wrong
  bytes, and when the field grows the buffer may move, which leaves the handles of all other fields
  pointing into the old one (`Messages.HandleSurvivesUpdateExactly`, with an example in
  `Messages.EarlierHandleDangles`).
- `apply` carries the name of a named field over to later fields that have none
  (`Merge.MergeStepIsPlainExactly` for one field, `MergeNames.MergeIsPlainExactly` for sources with
  distinct fids, with an example in `Merge.CarriedNameOverwrites`), even from a field whose type it skips
  (`Merge.SkippedFieldIsAbsentExactly`, `MergeNames.SkippedTypesHaveNoEffectExactly`, with an example in
  `Merge.SkippedNameIsCarried`).
- `addVectorString` stores the whole scratch buffer, not only the packed strings
  (`Vectors.AddedStringsReadBackExactly`, with an example in `Vectors.ShorterVectorKeepsStaleBytes`).
- `getVectorString` makes room for one slot per NUL and fills one per string started
  (`Vectors.SplitInto`, `Vectors.SlotsFitExactly`). The single byte 65 as data of a VECTOR_STRING field
  is one slot too few (`Vectors.UnendedVectorOverruns`), and `addVectorString` stores such data when
  message bytes are left in the scratch buffer (`Vectors.UnendedVectorIsStored`).
- An integer stored in a field of the same width but other signedness keeps the field's type, so it reads
  back changed at a wider type (`Integers.UpdatedIntegerReadsBack`, with an example in
  `Integers.UpdateKeepsSignedness`).
- `getVectorMsg` steps by the first message's length only (`Vectors.MessageVectorReadsBackExactly`), and
  stays inside the field only if the field is a whole number of such steps (`Vectors.UnpackExactly`,
  with examples in `Vectors.UnequalLengthsFail`).

## Model

| member | source | states |
|---|---|---|
| FieldTypes.TablesAgree | src/Payload.cpp:186-282 | The writer's length-prefix switch and the parser's switch agree on a type if and only if it is not UNKNOWN; every castable type has a fixed width the parser knows |
| FieldTypes.ShapeOfEachType | src/Iterator.cpp:120-182 | For every type and all data, the number of bytes or the form the parser takes: 1, 2, 4 or 8 bytes for the scalars (F32 and QUANTITY 4, F64 8), 24 and 40 for PRICE and TIME, one NUL-terminated string, anything behind a length, nothing for UNKNOWN |
| FieldTypes.LengthByType | src/Payload.cpp:186-215 | Which types are written with a length in front of the data |
| FieldTypes.AcceptsExactly | src/Payload.cpp:284-295 | Data may be stored in a field of its own type, or in any field of a fixed width of at most eight bytes if its type is such too, and nowhere else |
| Bytes.LowByteFirst | src/Payload.cpp:449-479 | Byte i of a stored number is its i-th digit to the base 256, lowest first |
| Wire.FieldLayout | src/Payload.cpp:444-479 | In an encoded field the type byte comes first, then the fid in two bytes, the name and its NUL, the length in four bytes where the type has one, and the data |
| Wire.ParsedShape | src/Iterator.cpp:90-182 | Whatever bytes the parser accepts, the field it reports has a NUL-free name, the extent its type demands and the data between the two offsets |
| Wire.RoundTripExactly | src/Iterator.cpp:90-182 | A field that fits the wire's slots is read back as written, with its exact length and whatever follows it, if and only if it is well-formed; UNKNOWN and mis-sized data fail |
| Wire.UnknownLosesItsData | src/Iterator.cpp:176-181 | Concretely, a one-byte UNKNOWN field is written in nine bytes and read back from four, without its data |
| Wire.EncodeOfParse | src/Payload.cpp:415-485 | Bytes that parse to a well-formed field are byte for byte what addField writes for it |
| Wire.DecodeOfEncode | src/Iterator.cpp:90-182 | Every list of well-formed fields is recovered from its concatenated encodings |
| Wire.EncodeOfDecode | src/Payload.cpp:415-485 | A byte string reads as a list of well-formed fields only if it is that list's encoding |
| Wire.EncodeAllInjective | src/Payload.cpp:415-485 | Two lists of well-formed fields with the same bytes are the same list: the encoding can be cut in one way only |
| Wire.ListRoundTripExactly | src/Iterator.cpp:90-182 | A list whose numbers fit their slots reads back unchanged if and only if every field is well-formed |
| Wire.FieldsTakeFiveBytes | src/Iterator.cpp:90-195 | A list of n well-formed fields takes at least 5n bytes, which bounds every iteration |
| Machine.FirstMatch | src/Payload.cpp:373-413 | Lookup gives the earliest field whose non-zero fid or present name matches, and the end of the list exactly when no field does |
| Machine.MatchingIsNotTransitive | src/Payload.cpp:394-395 | One key can reach two fields although neither is reached by the other's own fid and name |
| Machine.KeyStatusExactly | src/Payload.h:42-49 | A key is NULL_ARG without name and fid, INVALID_ARG with an empty name and no fid, and otherwise accepted |
| Machine.AddStatusExactly | src/Payload.cpp:415-440 | An append is refused for data over 2^32 - 1 bytes, then for none or empty data or no key, then for an empty key, each with its status, and for nothing else |
| Machine.UpdateStatusExactly | src/Payload.cpp:487-514 | An update is refused without data or key, for the type exactly when the field found has another one and not both are small scalars, and as an append when no field is found |
| Machine.MsgRefusesOpaque | src/Payload.cpp:506-510 | Concretely, an OPAQUE update of a MSG field is refused and changes nothing |
| Machine.HeaderBytes | src/Payload.cpp:347-365 | A new header is the letter O, 1 and 0; versions 0 and 1 are taken and later ones refused |
| Machine.AddKeepsOkExactly | src/Payload.cpp:415-485 | An append keeps the list well-formed if and only if it is rejected or its data has its type's shape |
| Machine.UpdateKeepsOkExactly | src/Payload.cpp:487-580 | An update keeps the list well-formed if and only if it is rejected or its data has the shape of the type it ends up stored under |
| Machine.UpdateKeepsFieldOkExactly | src/Payload.cpp:525-529 | Data of its own type's shape leaves the matched field well-formed if and only if the stored type and the given type have the same extent |
| Machine.UpdateReadsBackExactly | src/Payload.cpp:487-580 | After an accepted update the bytes read back as the updated list if and only if the data has the shape of the stored type; for data of its own type's shape, if and only if no cast between widths took place |
| Machine.WideningCastBreaksMessage | src/Payload.cpp:506-514 | Concretely, an I64 update of a U8 field is accepted and the message no longer reads back as the updated list |
| Machine.UpdateKeepsLookup | src/Payload.cpp:373-413 | Replacing a field's data changes no key's first match |
| Machine.AppendLookup | src/Payload.cpp:373-485 | Appending leaves every successful lookup and satisfies a failed one exactly when its key matches the new field |
| Machine.UpdatesCommute | src/Payload.cpp:487-580 | Updates found in two different fields commute byte for byte, resizing or not |
| Machine.LaterUpdateOverrides | src/Payload.cpp:487-580 | A later update of the same field hides an earlier one, and restoring the old data restores every byte |
| Machine.UpdateSplices | src/Payload.cpp:516-580 | Bytes before the updated field's length prefix stay, length and data are replaced, later bytes follow unchanged at their shifted place |
| Machine.LookupSurvivesRun | src/Payload.cpp:373-580 | Over any run of appends and of updates under keys that do not match it, a found field keeps its place, its lookup and its data |
| Machine.StepKeepsOkExactly | src/Payload.cpp:347-580 | An operation keeps the abstract message well-formed if and only if what it stores has the shape of the type it is stored under and what it loads is well-formed, and a rejected one leaves it as it was |
| Memory.MemMove | src/Payload.cpp:560-568 | Overlapping moves in either direction put the old source bytes at the target and touch nothing else |
| Messages.ReadingOfLive | src/Payload.cpp:857-914 | The live bytes of a well-formed message read back as its header and field list |
| Messages.LiveOfReading | src/Payload.cpp:857-914 | A well-formed buffer is exactly the bytes of what it reads as, with the header size its third byte says |
| Messages.FieldAt | src/Iterator.cpp:90-195 | Field i lies where the sizes before it add up to, parses there as itself, and has its name and data at the handle's offsets |
| Messages.UpdateBytes | src/Payload.cpp:516-580 | In whole-message offsets, an update through the handle of field i is the splice of length prefix and data at that handle |
| Messages.UpdateMovesBoundaries | src/Payload.cpp:531-571 | An update moves the boundaries behind the field by the change in size and leaves those up to it |
| Messages.HandleSurvivesUpdateExactly | src/Payload.cpp:531-579 | After an update of field i the handle of field j is still right if and only if the buffer did not move and j is before i or the size did not change; whatever the allocator does, if and only if the size did not change or j is before i and the field shrank |
| Messages.EarlierHandleDangles | src/Payload.cpp:540-557 | Concretely, growing the second of two fields leaves the first one's handle with the right offsets in a buffer the message no longer uses |
| Messages.ResizedTailExactly | src/Payload.cpp:570 | The tail after a resize is the old tail plus the change if and only if the old tail is below 2^31 |
| Messages.ScalarUpdateKeepsBoundaries | src/Field.cpp:93-103 | A same-type update of a fixed-width field moves no field boundary and keeps the field well-formed |
| Messages.Payload.constructor | src/Payload.cpp:162-175 | A new payload is the empty message behind a fresh version 1 header, in a buffer of 200 bytes |
| Messages.Payload.Clear | src/Payload.cpp:347-365 | Whatever was there, the message becomes the empty one and every byte behind the tail is zero |
| Messages.Payload.AddField | src/Payload.cpp:415-485 | The message gains the new field at its end, or is untouched with the status of the first failing check; its bytes still read as its list if and only if the data has its type's shape; the buffer never shrinks |
| Messages.Payload.FindField | src/Payload.cpp:373-413 | The cursor-driven search returns the handle of the earliest matching field, and NOT_FOUND exactly when none matches |
| Messages.Payload.Resize | src/Payload.cpp:531-571 | Growing or shrinking, with or without a new buffer: bytes before the data stay, bytes behind it arrive shifted by the change, and the tail moves by it; the buffer is replaced only when the data grows, and then has room for the growth |
| Messages.Payload.UpdateHandle | src/Payload.cpp:516-580 | Through a fresh handle on field i the live bytes become the encoding of the list with only that field's data replaced, whatever the size change; the message still reads as that list if and only if the replaced field is well-formed; the buffer is replaced only when the data grows |
| Messages.Payload.UpdateField | src/Payload.cpp:487-514 | The live bytes become the encoding of what update-first-match-or-append gives, with its status, and still read as that list if and only if the data has the shape of the type it is stored under; a rejected update changes nothing, the type is rejected exactly when the field found has another one and not both are small scalars, and the buffer is replaced only by an append or a growing update |
| Messages.Payload.UnSerialize | src/Payload.cpp:871-914 | The live bytes become the given ones whatever was held before, and the rest of what the buffer held is zero; the cached header fits them if and only if they are as long as it says; a rejected version or empty buffer changes nothing; well-formed bytes give the message they read as |
| Messages.Payload.CopyTo | src/Payload.cpp:654-682 | The copy, new or reused, holds the same bytes and the same abstract message, and the original is unchanged |
| Messages.Payload.NumFields | src/Payload.cpp:709-734 | The counting loop returns the number of fields, at most a fifth of the live bytes behind the header |
| Messages.ParseAt | src/Iterator.cpp:90-182 | The in-place parser reports what the parsing function gives on the bytes at that position |
| Messages.Cursor.Init | src/Iterator.cpp:266-286 | A cursor starts before the first field, holding it, and past its start-up unless the message is empty |
| Messages.Cursor.Begin | src/Iterator.cpp:216-256 | begin returns the first field, which the cursor then holds, or NULL, and rewinds so that the next step yields that field again |
| Messages.Cursor.HasNext | src/Iterator.cpp:198-214 | True exactly while a field is left |
| Messages.Cursor.Next | src/Iterator.cpp:74-196 | Yields the handle of the next field and moves to the following boundary, or NULL at the end with nothing changed; only the call after begin rewinds |
| Messages.Cursor.UpdateScalar | src/Field.cpp:93-103 | Updating the field the cursor holds, yielded by a step or returned by begin, with its own type replaces its data, keeps the cursor at its boundary, its handle right and the buffer where it is; another type is refused |
| Runs.Perform | src/Payload.cpp:347-580 | Each operation leaves the bytes of the abstract step and its status, casts between widths and loads of any buffer included; the bytes read as that state if and only if what was stored has the shape of the type it is stored under or what was loaded is well-formed; a rejected operation changes neither object nor bytes |
| Runs.PerformAll | src/Payload.cpp:347-580 | After any run the live bytes are header and encodings of the list the abstract run holds, also over operations that break the encoding and clears and loads that follow them; statuses agree, the cached header agrees with the bytes, the tail is at most the capacity, which has not shrunk; the bytes can be read if and only if nothing broke them since they were last cleared or loaded; the header fits unless one that does not was loaded |
| Runs.WalkYieldsOriginal | src/Iterator.cpp:184-195 | However scalar updates of the held field are mixed with steps, each field is yielded once, in order, with its data as at the first step; updates before that step touch the first field's data only; only fields behind the cursor differ in the end, in data of equal size |
| Runs.WalkAll | src/Field.cpp:249-343 | Driving a cursor through any such mix hands out the original fields' handles in order, reads each field from the buffer as it was at the first step, never moves the buffer, and leaves the list the walk prescribes |
| Runs.AppendAndYield | src/Iterator.cpp:118-141 | A scalar of 1, 2, 4 or 8 bytes as its type has it, once appended, is the last field a cursor yields, with its type, its size and its bytes |
| Nested.TreeRoundTrip | src/Field.cpp:601-627 | Serialising a message tree into MSG fields and opening it recursively gives the same tree at any depth |
| Nested.GetMsg | src/Field.cpp:601-627 | A MSG field's data becomes a payload with exactly those live bytes; empty data gives none, a later version an empty one, with their statuses; other types are refused |
| Nested.AddMsg | src/Payload.cpp:1378-1410 | The embedded payload's live bytes are appended as the data of a MSG field |
| Nested.UpdateSubMsg | src/Payload.cpp:583-595 | The embedded payload's live bytes replace the first match's data or are appended; the message can be read if and only if they are fewer than 2^32 |
| Nested.Build | src/Payload.cpp:1378-1410 | Building a tree bottom-up with addField and addMsg leaves exactly the tree's bytes |
| Nested.Read | src/Field.cpp:601-627 | Walking a message with a cursor and getMsg recovers the tree its bytes stand for |
| Nested.BuildAndRead | src/Payload.cpp:1378-1410 | What was built as a tree is read back as the same tree |
| Vectors.StringsRoundTripExactly | src/Payload.cpp:1533-1568 | Packed strings followed by stale bytes split into the strings if and only if there are no stale bytes |
| Vectors.JoinOfSplit | src/Field.cpp:738-757 | Data splits into strings if and only if it is empty or ends in a NUL, and packing the strings gives the data back |
| Vectors.CountIsStrings | src/Field.cpp:738-757 | The number of NULs counted is the number of strings the splitting loop finds |
| Vectors.PackStrings | src/Payload.cpp:1896-1912 | The space computed is the space filled, and the scratch buffer starts with the strings and their NULs |
| Vectors.UpdateVectorString | src/Payload.cpp:1883-1919 | Exactly the packed strings are stored under the key; the message can be read if and only if they take fewer than 2^32 bytes |
| Vectors.AddVectorString | src/Payload.cpp:1532-1568 | The packed strings and all spare scratch bytes are appended; under a new key they read back if and only if the strings fill the scratch buffer |
| Vectors.GetVectorString | src/Field.cpp:726-762 | Every slot of the array points at the string of its number, no slot is left out and none is written beyond the array |
| Vectors.SplitInto | src/Field.cpp:752-757 | On any data the splitting loop writes down the start of every string, ended by a NUL or not, in as many slots |
| Vectors.StartsAreStrings | src/Field.cpp:752-757 | In data that splits into strings, the starts are where those strings lie, one for each |
| Vectors.SlotsFitExactly | src/Field.cpp:738-757 | There are as many starts as NULs counted if the data is empty or ends in a NUL, and one more otherwise |
| Vectors.UnendedVectorOverruns | src/Field.cpp:738-757 | Concretely, a well-formed field with the data 65 has no NUL to count and one start to write down |
| Vectors.UnendedVectorIsStored | src/Payload.cpp:1549-1567 | Concretely, updateVectorMsg and then a shorter addVectorString store data that ends without a NUL and has one start more than NULs |
| Vectors.StringVectorReadsBack | src/Payload.cpp:1883-1919 | After an accepted update the key finds data that splits into the stored strings in order |
| Vectors.AddedStringsReadBackExactly | src/Payload.cpp:1563-1567 | After addVectorString under a new key the strings read back if and only if the scratch buffer had no spare bytes |
| Vectors.ShorterVectorKeepsStaleBytes | src/Payload.cpp:1549-1567 | Concretely, a shorter vector packed after a longer one on the same payload does not read back |
| Vectors.MessagesRoundTripExactly | src/Field.cpp:868-905 | A non-empty vector of messages reads back as stored if and only if all have the first one's length |
| Vectors.CountMsgs | src/Field.cpp:868-873 | The counting loop ends on any field, with size over first length plus four, rounded up |
| Vectors.UpdateVectorMsg | src/Payload.cpp:1835-1881 | The messages, each behind its length, are stored under the key, and an over-long one is refused; the message can be read if and only if they take fewer than 2^32 bytes together |
| Vectors.GetVectorMsg | src/Field.cpp:855-910 | On any field whose pieces lie in the buffer, inside the field or not, both loops end with the same count and every slot is filled from its piece; when the field is a whole number of strides these are the unpacked messages |
| Vectors.UnpackExactly | src/Field.cpp:868-905 | The loops stay inside the field if and only if its size is a multiple of the first length plus four |
| Vectors.WholeStridesAreInside | src/Field.cpp:868-905 | Such a field meets what getVectorMsg needs of the buffer |
| Vectors.UnequalLengthsFail | src/Field.cpp:883-903 | Concretely, messages of 8 and 3 bytes run past the field, and messages of 3 and 10 bytes are read as three |
| Vectors.MessageVectorReadsBackExactly | src/Payload.cpp:1835-1881 | After an accepted update the key finds data that unpacks to the stored messages if and only if their lengths agree |
| Merge.Apply | src/Payload.cpp:952-1173 | The destination's list becomes the left fold of the loop body, carried name included, over the source's fields; its header and the whole source stay |
| Merge.ApplyOneField | src/Payload.cpp:974-1170 | One field of the source, whatever the destination and the carried name: eight types leave the destination alone, and a field of any other is stored by update-or-append with the whole elements of its data under its fid and its name or else the carried one |
| Merge.ApplyCopiesField | src/Payload.cpp:974-1170 | Into an empty message, a field of any other type than these is copied, but for a last element that is not whole |
| Merge.ElementWidthIsScalars | src/Payload.cpp:126-147 | An element of a vector is as wide as its scalar type is on the wire |
| Merge.MergeIsPlain | src/Field.cpp:168-172 | When no nameless supported field follows a named one, apply is the fold of update-or-append under each field's own key |
| MergeNames.PutsAgreeExactly | src/Payload.cpp:487-580 | Two runs of update-or-append over distinct fids, with types, fids and data alike, give the same list from every message if and only if their names are alike |
| MergeNames.MergeIsPlainExactly | src/Payload.cpp:952-1173 | On a source whose supported fields have distinct fids, apply is the fold of update-or-append under own keys for every destination if and only if no nameless supported field follows a named one |
| MergeNames.RepeatedFidHidesName | src/Payload.cpp:974-979 | Concretely, with a repeated fid apply is that fold for every destination although a name is carried |
| Merge.MergeStepIsPlainExactly | src/Payload.cpp:974-979 | A loop pass agrees with the expected step on every destination if and only if no name is carried to a supported field without one |
| Merge.CarriedNameOverwrites | src/Payload.cpp:974-979 | Concretely, a nameless second field is lost and its value overwrites the first |
| Merge.SkippedTypesHaveNoEffect | src/Payload.cpp:1160-1170 | When no nameless supported field follows a named one, apply gives the same list with the fields of skipped types left out |
| MergeNames.SkippedTypesHaveNoEffectExactly | src/Payload.cpp:977-1170 | On a source whose supported fields have distinct fids, the skipped fields can be left out for every destination if and only if every nameless supported field is carried the name that the supported fields before it leave |
| Merge.SkippedFieldIsAbsentExactly | src/Payload.cpp:977-1170 | A skipped field can be dropped before a supported one on every destination if and only if it has no name, the other has one, or its name is carried anyway |
| Merge.SkippedNameIsCarried | src/Payload.cpp:977-1170 | Concretely, a skipped QUANTITY field gives its name to the U8 field after it |
| Merge.UpdateScalarVector | src/Payload.cpp:126-147 | Whole elements are stored by update-or-append; the status is NULL_ARG without a value or a key, and OK whenever a field was found |
| MergeAlgebra.ApplyIsIdempotent | src/Payload.cpp:952-1173 | On messages keyed by distinct fids that agree on types, applying a second time changes nothing |
| MergeAlgebra.ApplyIsAssociative | src/Payload.cpp:952-1173 | On such messages, applying s and then t gives what applying s with t applied to it gives |
| MergeAlgebra.AgreeingIsMergeable | src/Payload.cpp:952-1173 | Such messages meet every per-step demand of apply when their sizes together stay below 2^31 |
| MergeAlgebra.ApplyTwice | src/Payload.cpp:952-1173 | Two calls of apply leave the live bytes that one call leaves |
| MergeAlgebra.ApplyGrouped | src/Payload.cpp:952-1173 | Run on four payloads, both groupings of apply end with the same live bytes |
| Integers.ValuesOfEachType | src/Payload.h:152-231 | The integer types, and the least and greatest value of each |
| Integers.BytesAreOneValue | src/Payload.h:152-231 | Any bytes of a type's width are the memory of exactly one of its values |
| Integers.ReadAsExactly | src/Payload.h:141-238 | Data wider than the target is refused; an integer field gives its one value converted, any other the value whose memory is the data followed by zeroes |
| Integers.OnesAreSignedOrNot | src/Payload.h:190-201 | Concretely, four bytes 255 read at I64 are -1 from an I32 field and 4294967295 from a U32 field |
| Integers.CastIsModular | src/Payload.h:152-201 | A conversion lands in the target type, is congruent modulo the type's number of values, and keeps values the type has |
| Integers.GetInteger | src/Payload.h:121-238 | A get validates the key, finds the first match, refuses data wider than the target and otherwise returns the converted value |
| Integers.AddedIntegerReadsBack | src/Payload.h:139-238 | A stored integer reads back exactly at types at least as wide, as the converted value, and as itself where the type has it |
| Integers.IntegerReadsBackAfterRun | src/Payload.h:121-238 | The same after any run of appends and of updates under keys that do not match the added field |
| Integers.UpdatedIntegerReadsBack | src/Payload.cpp:506-529 | An integer stored by update in an integer field of its width reads back at types at least as wide, converted to the field's type first, which shows if and only if that type does not have the value and the reader's is wider |
| Integers.UpdateKeepsSignedness | src/Payload.cpp:506-529 | Concretely, -1 stored as I8 in a U8 field reads as 255 at I16 |
| Print.DigitsDenote | src/Payload.cpp:807-811 | The digits printed for a fid are decimal digits that denote it, without a leading zero |
| Print.TextLayout | src/Payload.cpp:798-812 | A field's text starts with the name and ends with the value; between them stands "=", or "[", the fid in decimal and "]=" when there is a fid |
| Print.TextOfOneField | src/Payload.cpp:807-811 | Concretely, the field a with fid 1 and value 7 is written a[1]=7 |
| Print.CommaJoinLayout | src/Payload.cpp:814-817 | The texts follow each other in order with one comma between |
| Print.RenderingLayout | src/Payload.cpp:765-822 | Text i stands where the texts before it end, followed by a comma or by the closing brace, and an opening brace comes first |
| Print.RenderingOfNothing | src/Payload.cpp:776-821 | The empty message is rendered as two braces |
| Print.SlackIsTight | src/Payload.cpp:789-812 | The ten spare bytes cover a field's text, one more character and the NUL, and are used up exactly by a five-digit fid |
| Print.ToString | src/Payload.cpp:747-823 | The scratch buffer ends up with a brace, the fields separated by commas, a brace and the only NUL, and no write leaves it |

## Left out

- Merge.Apply: does not cover TIME and PRICE source fields, whose bytes go through middleware date-time and price objects; VECTOR_STRING fields that are empty or do not end in a NUL; MSG fields that cannot be loaded, where the source stores whatever the field object last loaded; and casts between widths, after which the destination can no longer be searched.
- Merge.MergeIsPlain: goes one way on sources with repeated fids, where the converse fails (MergeNames.RepeatedFidHidesName); on distinct fids MergeNames.MergeIsPlainExactly goes both ways.
- Merge.SkippedTypesHaveNoEffect: goes one way; on distinct fids MergeNames.SkippedTypesHaveNoEffectExactly is exact.
- Merge.UpdateScalarVector: excludes an empty name without a fid, for which the source updates an uninitialised field object, and values of 2^32 bytes or more.
- Vectors.GetVectorMsg: excludes pieces that reach past the allocated buffer and a first length of one or two, which is shorter than the header that loading copies.
- Vectors.GetVectorString: excludes data that neither is empty nor ends in a NUL, for which Vectors.SlotsFitExactly shows one slot too few.
- Nested.GetMsg: excludes MSG data of one or two bytes, which is shorter than the header that loading copies.
- Messages.Payload.UnSerialize: excludes buffers of one or two bytes, for the same reason.
- Runs.Perform: excludes appends to and updates of bytes that cannot be read, as does Runs.PerformAll, and loads of one or two bytes.
- Integers.GetInteger: excludes F32, F64 and QUANTITY fields, whose floating-point conversions are not modelled; their data is carried as raw bytes.
- Calls into OpenMAMA: messages, dictionaries, descriptors, date-times and prices. A sub-message is taken as a payload, a message in a vector as its byte buffer.
- Rendering of one value by snprintf: a parameter of Print.ToString that returns at most 1023 bytes.
- The typed wrappers per field type: one operation parameterised by type stands for each family, and vectors of times and prices are carried as bytes.
- Reuse and freeing of returned objects: getMsg and getVectorMsg create a new payload for every result.
- Calls that alias a message with itself, operations on malformed buffers, and cursors left open across a resizing update beyond Messages.UpdateMovesBoundaries.
- A NULL name pointer that a moving buffer rebases to a non-NULL one: it stays in the handle the update went through, which omnmmsgFieldPayload_updateString (src/Field.cpp:345-356) takes from its caller.
- Overflow of the cursor's 32-bit step counter, which takes a message of more than 2^31 fields.
- Parent and closure setters, bridge initialisation, not-implemented stubs, the benchmark and the build files.
