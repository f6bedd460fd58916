# pyhprof in Dafny

pyhprof reads Java HPROF heap dumps. It works in three layers:

- **Parsers** (`parsers.py`): a byte cursor over the file. It reads big-endian unsigned integers, identifiers of the dump's id size and typed values. It reads the file header, splits the file into top-level records, and walks the sub-records of a heap dump. The heap-dump parser can count bytes against a length bound.
- **Blocks** (`blocks.py`, `heap_blocks.py`, `constants.py`): the tag tables and one object per record.
  - A STRING record or a LOAD_CLASS record reads its payload lazily and caches it.
  - A HEAP_DUMP record is the element stream.
  - Each heap-dump element (roots, class dumps, instance dumps, object and primitive array dumps) parses itself with a classmethod.
- **References** (`references.py`, `reference_graph.py`): the `ReferenceBuilder` runs two passes.
  - The first pass collects strings and class names up to the first HEAP_DUMP.
  - The second pass turns classes, instances and arrays into references whose children are raw object ids.
  - Afterwards every class is linked to its parent and every child is resolved to a reference.
  - Breadth-first traversal of that graph gives deep (retained) counts and sizes.
  - The graph renderer's helpers format sizes, break long class names, and list the entries of `HashMap` and `HashSet` instances.

## How the model is built

- **Modules.** The Dafny modules follow the source files:
  - `Constants`, `Decoding` and `Parsers` come from `parsers.py`;
  - `Blocks` and `HeapBlocks` come from the two block files;
  - `References` and `ReferenceBuilding` come from `references.py`;
  - `ReferenceGraph` comes from `reference_graph.py`;
  - `BigEndian`, `Utf8`, `Dicts` and `Wrappers` are supporting modules.
- **Exceptions.** Python exceptions become `Result` failures named after the exception raised: EOFError, KeyError, ValueError, AttributeError, TypeError, NameError, AssertionError, `struct.error` and UnboundLocalError. Each operation models the error paths the code can reach. Types are carried as `Constants.BasicType`, one per entry of the TYPES table. So the two branches for a type name outside that table cannot arise, in the code or in the model (see "## Left out").
- **Mutable objects become classes.** The file object, the parsers, the top-level blocks and the `ReferenceBuilder` are classes whose methods change their fields.
- **Parser class.** The three parser classes are one class `Parsers.Parser` with a `counting` flag, because Dafny has no class inheritance here. When the flag is set, read and seek count bytes in `position` and check them against `length`, as `HeapDumpParser` does.
- **Methods and their specification functions.** Every reading method is proved equal, result and new cursor alike, to a specification function on the file's bytes and a `Cursor` (file position and counted position).
  - The functions are proved against an encoder: an `...Exact` lemma says that a read succeeds with a value exactly when that value's encoding lies at the cursor.
  - This holds for the header, the records, every heap-dump element and whole streams of elements.
- **Reference graph.** The reference graph is an arena `map<nat, Reference>` keyed by object id.
  - Children are an insertion-ordered dict (`Dicts.Dict`) from field names or array indices to a `Slot`.
  - A `Slot` is either a raw id (`Pending`) or, after resolution, the id of a reference in the table or None (`Resolved`).
  - A class's `parent_class` is a `Link` that is unset until `build` links it.
  - `build` returns `references.values()`. The model returns the table itself, whose values are those references.

### Source behaviour the model keeps

- An exception in either pass aborts `build`.
  - If the file ends before any HEAP_DUMP record, the `assert 0` in `read_hprof` raises AssertionError.
  - A HEAP_DUMP_SEGMENT record is not a HEAP_DUMP, so a file with only segments also ends in AssertionError.
- `read_references` builds its `HeapDumpParser` with `ID_SIZE` = 8 and no length. It therefore stops at the first byte that is no sub-record tag, or at the end of the file. It never stops at the heap dump's own length.
- `ARRAY_OVERHEAD` is imported from `constants.py`, which does not define it. The builder takes it as a constructor parameter.
- `HeapDump.__iter__` calls an unbound name and raises NameError (`Blocks.Block.Iterate`).
- `RootJniGlobal` spells its classmethod `prase`, so parsing one raises AttributeError.
- The thread roots call `super(BaseThreadFrameHeadDumpBlock, self)` from classes that are not below it, or with a missing argument. They raise TypeError once their fields have been read (`HeapBlocks.ThreadRootsRaise`).
- `HeapDumpParser.read_next_block` compares `self.position == self.length`. Only a parser with a length can be at its bound.
- `StringBlock.read_contents` treats its failures differently:
  - when the read fails, the bare `except` runs `str(contents)` while `contents` is still unassigned, so the handler itself raises UnboundLocalError;
  - a short contents read is not an error;
  - bytes that are not UTF-8 are kept raw.
- `self.strings[b.id] = b.contents` evaluates the right-hand side first. The contents are read first; the id then comes from the cache.
- `split_name`'s `max_name_characters` is a parameter (default 16).

## Model

| member | source | states |
|---|---|---|
| BigEndian.FromToBE | pyhprof/parsers.py:39-51 | decoding the big-endian encoding of a number that fits w bytes gives the number back |
| BigEndian.ToFromBE | pyhprof/parsers.py:39-51 | encoding the number read from w bytes gives those bytes back |
| BigEndian.FromBEInjective | pyhprof/parsers.py:39-51 | two byte strings of one width that decode to the same number are equal |
| Constants.Code | pyhprof/constants.py:35-45 | every basic type's code is 2 or lies in 4..11 |
| Constants.TypeOfCode | pyhprof/constants.py:35-45 | a code names a type exactly when it is 2 or in 4..11, and then it is that type's code |
| Constants.PrimitiveWidth | pyhprof/constants.py:47-56 | a primitive type is 1, 2, 4 or 8 bytes wide |
| Constants.TablesAgree | pyhprof/constants.py:35-56 | the typed codes and widths agree with OBJECT_TYPES and TYPE_SIZES entry by entry; a code is in OBJECT_TYPES exactly when it decodes |
| Constants.CodesRoundTrip | pyhprof/constants.py:35-45 | code to type to code is the identity; codes and names are injective |
| Constants.TypeSizesCoverPrimitives | pyhprof/constants.py:47-56 | TYPE_SIZES has every type but OBJECT, and gives 1 exactly for BOOLEAN and BYTE, 2 for CHAR and SHORT, 4 for FLOAT and INT, and 8 for DOUBLE and LONG |
| Constants.ObjectTypesInjective | pyhprof/constants.py:35-45 | OBJECT_TYPES is defined exactly on 2 and 4..11, and no two codes share a name |
| Constants.SubTagsCodes | pyhprof/constants.py:19-33 | the sub-tag table is defined on 0x01..0x08, 0x20..0x23 and 0xFF, and has no HEAP_DUMP_END entry |
| Constants.SubTagsInjective | pyhprof/constants.py:19-33 | no two sub-tags share a name |
| Constants.TagsInjective | pyhprof/constants.py:2-17 | no two record tags share a name; STRING, LOAD_CLASS, HEAP_DUMP and HEAP_DUMP_SEGMENT have codes 0x01, 0x02, 0x0C and 0x1C |
| Constants.TagNameHeapDump | pyhprof/parsers.py:130 | the tag name is HEAP_DUMP, STRING or LOAD_CLASS exactly for tags 0x0C, 0x01 and 0x02, and is 'UNKOWN' exactly for tags missing from TAGS |
| Utf8.LeadLength | pyhprof/blocks.py:42 | the first character's byte length is at most 4 and at most the input's length, and is 0 exactly when the input is empty or its first sequence is malformed |
| Utf8.LeadCodePoint | pyhprof/blocks.py:42 | a well-formed leading sequence decodes to a Unicode scalar value |
| Utf8.EncodeChar | pyhprof/blocks.py:42 | a character encodes to 1 to 4 bytes |
| Utf8.DecodeEncodeChar | pyhprof/blocks.py:42 | decoding the front of a character's encoding gives the character and its length |
| Utf8.EncodeLeadChar | pyhprof/blocks.py:42 | encoding the decoded first character gives its bytes back |
| Utf8.DecodeEncode | pyhprof/blocks.py:42 | decoding an encoded string gives the string |
| Utf8.EncodeDecode | pyhprof/blocks.py:42 | encoding the decoding of any decodable byte string gives those bytes |
| Decoding.Span | pyhprof/parsers.py:25 | `f.read(n)` gets n bytes exactly when they are all in the file, those bytes, and fewer otherwise |
| Decoding.ReadSpec | pyhprof/parsers.py:24-28 | a read that succeeds returns n bytes and advances the cursor by n; the file cursor always moves over what was read |
| Decoding.ReadExact | pyhprof/parsers.py:24-28 | read(n) succeeds with bs exactly when bs is the n bytes at the cursor; it raises EOFError exactly when fewer than n remain, and AssertionError exactly when a counting parser passes its bound (lines 158-162) |
| Decoding.SeekSpec | pyhprof/parsers.py:30-31 | a relative seek advances by n, also past the end of the file |
| Decoding.UIntSpec | pyhprof/parsers.py:33-51 | an unsigned read that succeeds advances by its width |
| Decoding.UIntSucceeds | pyhprof/parsers.py:33-51 | an unsigned read of w bytes succeeds exactly when the bytes are there and a counting parser stays in its bound |
| Decoding.UIntExact | pyhprof/parsers.py:39-51 | an unsigned read gives v exactly when v's big-endian encoding is at the cursor |
| Decoding.UIntBounds | pyhprof/parsers.py:44-51 | i2, i4 and i8 return numbers below 2^16, 2^32 and 2^64 |
| Decoding.IdSpec | pyhprof/parsers.py:53-55 | read_id advances by the identifier width |
| Decoding.IdExact | pyhprof/parsers.py:53-55 | read_id reads 4 bytes exactly when the id size is 4, 8 for any other size, and gives v exactly on v's encoding |
| Decoding.UIntsSpec | pyhprof/parsers.py:33-55 | a run of unsigned reads that succeeds returns one number per width |
| Decoding.UIntsRead | pyhprof/parsers.py:33-55 | what a run of reads returns fits the widths and is encoded at the cursor |
| Decoding.UIntsParse | pyhprof/parsers.py:33-55 | fitting numbers encoded at the cursor are read back by the run |
| Decoding.UIntsExact | pyhprof/parsers.py:33-55 | a run of reads gives ns exactly when ns fits and is encoded at the cursor |
| Decoding.ValueTypeSpec | pyhprof/parsers.py:57-58 | read_value_type that succeeds advances by one byte |
| Decoding.ValueTypeExact | pyhprof/parsers.py:57-58 | read_value_type gives tp exactly when tp's code byte is at the cursor |
| Decoding.TypeSizeTable | pyhprof/parsers.py:94-98 | type_size is the id size for OBJECT and the TYPE_SIZES entry otherwise |
| Decoding.ValueWidthIsTypeSize | pyhprof/parsers.py:72-98 | read_value reads type_size(tp) bytes except for OBJECT with an id size other than 4 or 8 |
| Decoding.ValueSpec | pyhprof/parsers.py:72-92 | read_value never moves the cursor back |
| Decoding.ValueExact | pyhprof/parsers.py:72-92 | read_value(tp) gives v exactly when v is a valid value of tp encoded at the cursor |
| Decoding.RepeatAdvances | pyhprof/heap_blocks.py:111-113 | repeated reads never move the cursor back |
| Decoding.RepeatRead | pyhprof/heap_blocks.py:111-113 | repeated reads that succeed return valid items laid end to end at the cursor |
| Decoding.RepeatParse | pyhprof/heap_blocks.py:111-113 | valid items laid end to end are read back by the repetition |
| Decoding.RepeatExact | pyhprof/heap_blocks.py:111-113 | n repeated reads give xs exactly when xs is n valid items laid out at the cursor |
| Decoding.RepeatRaise | pyhprof/heap_blocks.py:111-113 | the repetition raises the error of the first item read that fails, leaving the cursor where that read left it |
| Decoding.FormatRead | pyhprof/parsers.py:118-124 | the format scan returns NUL-free bytes that, with their NUL, lie at the cursor |
| Decoding.FormatParse | pyhprof/parsers.py:118-124 | NUL-free bytes followed by a NUL are read back as the format |
| Decoding.FormatExact | pyhprof/parsers.py:118-124 | the format is fmt exactly when fmt is NUL-free and fmt + NUL lies at the cursor |
| Decoding.HeaderExact | pyhprof/parsers.py:117-126 | read_header gives h exactly when h's encoding (format, NUL, 4-byte id size, 8-byte start time) lies at the cursor |
| Decoding.HeaderRead | pyhprof/parsers.py:117-126 | a header read is valid and encoded at the cursor |
| Decoding.HeaderParse | pyhprof/parsers.py:117-126 | an encoded valid header is read back |
| Dicts.Get | pyhprof/references.py:25-26 | a lookup finds a value exactly when the key is present |
| Dicts.GetAt | pyhprof/references.py:25-26 | in a dict with unique keys, the entry at i is what its key looks up |
| Dicts.PutGet | pyhprof/references.py:69 | after `d[k] = v`, k looks up v and every other key what it did before |
| Dicts.PutShape | pyhprof/references.py:69 | assignment keeps keys unique and in place, and appends a new key at the end |
| Parsers.Stream.Read | pyhprof/parsers.py:25 | f.read(n) returns what is there of n bytes (to the end for negative n) and moves past them |
| Parsers.Stream.Seek | pyhprof/parsers.py:31 | a relative seek moves the cursor by n |
| Parsers.Stream.SeekTo | pyhprof/parsers.py:142 | an absolute seek moves the cursor to p |
| Parsers.Parser.Plain | pyhprof/parsers.py:17-18 | a plain parser over f that counts nothing |
| Parsers.Parser.HeapDump | pyhprof/parsers.py:149-153 | a counting parser with the id size and length given and position 0 |
| Parsers.Parser.CheckPositionInBound | pyhprof/parsers.py:155-156 | succeeds exactly when there is no length or position is within it, and raises AssertionError otherwise |
| Parsers.Parser.Read | pyhprof/parsers.py:24-28 | result and cursor are those of ReadSpec, with the counting of lines 158-162 for a counting parser |
| Parsers.Parser.Seek | pyhprof/parsers.py:30-31 | result and cursor are those of SeekSpec, with the counting of lines 164-167 |
| Parsers.Parser.U1 | pyhprof/parsers.py:33-34 | one-byte read as ReadSpec |
| Parsers.Parser.I1 | pyhprof/parsers.py:36-37 | `ord(u1())` as UIntSpec of width 1 |
| Parsers.Parser.ReadStruct | pyhprof/parsers.py:39-42 | unsigned big-endian read of w bytes as UIntSpec |
| Parsers.Parser.I2 | pyhprof/parsers.py:44-45 | as UIntSpec of width 2 |
| Parsers.Parser.I4 | pyhprof/parsers.py:47-48 | as UIntSpec of width 4 |
| Parsers.Parser.I8 | pyhprof/parsers.py:50-51 | as UIntSpec of width 8 |
| Parsers.Parser.SetIdSize | pyhprof/parsers.py:53-55 | sets the id size, which selects the width of read_id |
| Parsers.Parser.ReadId | pyhprof/parsers.py:55 | as IdSpec: i4 when the id size is 4, i8 otherwise |
| Parsers.Parser.ReadUInts | pyhprof/parsers.py:33-55 | a run of unsigned reads as UIntsSpec |
| Parsers.Parser.ReadValueType | pyhprof/parsers.py:57-58 | as ValueTypeSpec: KeyError on a code OBJECT_TYPES lacks |
| Parsers.Parser.ReadBool | pyhprof/parsers.py:60-61 | as UIntSpec of width 1 |
| Parsers.Parser.ReadChar | pyhprof/parsers.py:63-64 | as UIntSpec of width 2 |
| Parsers.Parser.ReadFloat | pyhprof/parsers.py:66-67 | the four raw bytes, as ReadSpec |
| Parsers.Parser.ReadDouble | pyhprof/parsers.py:69-70 | the eight raw bytes, as ReadSpec |
| Parsers.Parser.ReadValue | pyhprof/parsers.py:72-92 | as ValueSpec, branch by branch |
| Parsers.Parser.ReadFormat | pyhprof/parsers.py:118-123 | the loop of u1 up to the first NUL, as FormatSpec |
| Parsers.Parser.ReadHeader | pyhprof/parsers.py:117-126 | as HeaderSpec; format, id size and start time each set as soon as it is read and kept when a read fails before it |
| Parsers.Parser.GotoEnter | pyhprof/parsers.py:138-142 | remembers the cursor, then moves to the target when one is given |
| Parsers.Parser.GotoExit | pyhprof/parsers.py:143-144 | moves back to the remembered cursor |
| Parsers.UIntIgnoresIdSize | pyhprof/parsers.py:44-55 | unsigned reads do not depend on the id size set in between |
| Parsers.OpenHProf | pyhprof/parsers.py:113-115 | HProfParser(f) exists exactly when the header reads, and holds its fields |
| Blocks.DecodeContentsExact | pyhprof/blocks.py:41-44 | the contents are the string s exactly when the bytes are s's UTF-8 encoding, and the raw bytes exactly when they are not UTF-8 |
| Blocks.BlockClassOfTag | pyhprof/blocks.py:100-104 | the record class is StringBlock, LoadClass or HeapDump exactly for tags 0x01, 0x02 and 0x0C; HEAP_DUMP_SEGMENT gets GenericBlock |
| Blocks.StringPayloadExact | pyhprof/blocks.py:37-46 | a STRING payload gives (id, text s) exactly when the id's encoding is at the cursor and the bytes read after it, `length - id_size` of them or the rest of the file when that is negative, are s's UTF-8 encoding |
| Blocks.StringPayloadEncoded | pyhprof/blocks.py:37-46 | with id size 4 or 8, a STRING record holding an id and s's UTF-8 encoding, its length counting both, reads as that id and s |
| Blocks.ReadConsumed | pyhprof/blocks.py:41 | a file read over consumed bytes returns those bytes |
| Blocks.LoadClassExact | pyhprof/blocks.py:67-72 | a LOAD_CLASS payload gives l exactly when l's four fields are encoded at the start, 8 + 2 id widths long |
| Blocks.LoadClassRead | pyhprof/blocks.py:67-72 | a payload read is valid and encoded at the start |
| Blocks.LoadClassParse | pyhprof/blocks.py:67-72 | an encoded payload is read back |
| Blocks.RecordHeaderExact | pyhprof/parsers.py:128-136 | a record header gives h exactly when tag, time and length are encoded at the cursor and the payload starts after them; the cursor then ends at start + length |
| Blocks.RecordHeaderRead | pyhprof/parsers.py:128-136 | a record header read has a one-byte tag, four-byte time and length, and a payload that starts 9 bytes on |
| Blocks.RecordHeaderParse | pyhprof/parsers.py:128-136 | an encoded record header is read back |
| Blocks.Block.constructor | pyhprof/blocks.py:11-16 | a record with its header fields and empty caches |
| Blocks.Block.StringReadContents | pyhprof/blocks.py:37-46 | inside goto(start): on success both caches hold the payload and the cursor is back; UnboundLocalError when the id cannot be read |
| Blocks.Block.Id | pyhprof/blocks.py:48-52 | the cached id, reading the payload only when there is none |
| Blocks.Block.Contents | pyhprof/blocks.py:54-58 | the cached contents, reading the payload only when there are none |
| Blocks.Block.LoadClassReadContents | pyhprof/blocks.py:67-72 | each cache set as soon as its field is read; on success the cursor is back, on failure it stays where the failing read left it |
| Blocks.Block.ClassId | pyhprof/blocks.py:74-78 | the cached class id, reading the payload only when there is none |
| Blocks.Block.ClassNameId | pyhprof/blocks.py:80-84 | the cached name id, reading the payload only when there is none |
| Blocks.Block.Iterate | pyhprof/blocks.py:94-97 | iterating a HEAP_DUMP raises NameError |
| Blocks.Block.HeapParser | pyhprof/blocks.py:88-92 | inside goto(start), a counting parser over the same file bounded by the record's length |
| Blocks.ReadNextBlock | pyhprof/parsers.py:128-136 | reads the header as RecordHeaderSpec, skips the payload, and returns a fresh block of the class its tag names, with empty caches |
| HeapBlocks.SubTagOf | pyhprof/heap_blocks.py:188-202 | every element class has a one-byte sub-tag |
| HeapBlocks.SubTagClass | pyhprof/heap_blocks.py:188-202 | the class found for a code has that code as its sub-tag |
| HeapBlocks.SubTagClassTable | pyhprof/parsers.py:173-177 | a code has a class exactly when it is in HEAP_DUMP_SUB_TAGS, whose names are never HEAP_DUMP_END and are always in HEAP_BLOCK_CLASSES_BY_TAG |
| HeapBlocks.SubTagClassNamed | pyhprof/heap_blocks.py:188-202 | the class of a sub-tag is the one HEAP_BLOCK_CLASSES_BY_TAG gives for its name |
| HeapBlocks.SubTagsRoundTrip | pyhprof/heap_blocks.py:188-202 | a code maps to a class exactly when it is that class's sub-tag |
| HeapBlocks.EntrySpec | pyhprof/heap_blocks.py:117-135 | an entry read that succeeds gives an entry of the kind asked for |
| HeapBlocks.EntryExact | pyhprof/heap_blocks.py:117-135 | read_constant, read_static_field and read_instance_field give x exactly when x is valid and encoded at the cursor |
| HeapBlocks.EntriesExact | pyhprof/heap_blocks.py:111-113 | n entry reads give xs exactly when xs is n valid entries laid out at the cursor |
| HeapBlocks.EntriesRaise | pyhprof/heap_blocks.py:111-113 | n entry reads raise the error of the first failing one |
| HeapBlocks.ListExact | pyhprof/heap_blocks.py:111-113 | an i2 count and that many entries give xs exactly when the count and xs are encoded at the cursor |
| HeapBlocks.ClassHeadExact | pyhprof/heap_blocks.py:102-110 | the nine fixed fields of a class dump read as h exactly when h is encoded at the cursor |
| HeapBlocks.ClassDumpSpec | pyhprof/heap_blocks.py:100-115 | ClassDump.parse: the fixed fields, then the constants, static fields and instance fields lists; the cursor never moves back (ClassDumpExact gives the iff with the encoding) |
| HeapBlocks.ClassDumpRead | pyhprof/heap_blocks.py:100-115 | a class dump that parses is valid and encoded at the cursor |
| HeapBlocks.ClassDumpParse | pyhprof/heap_blocks.py:100-115 | an encoded class dump is parsed back |
| HeapBlocks.ClassDumpExact | pyhprof/heap_blocks.py:100-115 | ClassDump.parse gives b exactly when b is a valid class dump encoded at the cursor |
| HeapBlocks.InstanceDumpSpec | pyhprof/heap_blocks.py:145-152 | InstanceDump.parse: four fields, then the bytes they announce; the cursor never moves back |
| HeapBlocks.InstanceDumpExact | pyhprof/heap_blocks.py:145-152 | InstanceDump.parse gives b exactly when b's fields and bytes are encoded at the cursor |
| HeapBlocks.IdsExact | pyhprof/heap_blocks.py:168 | n read_id calls give xs exactly when n fitting ids are encoded at the cursor |
| HeapBlocks.ObjectArrayDumpSpec | pyhprof/heap_blocks.py:162-169 | ObjectArrayDump.parse: id, serial, count, class id, then that many element ids; the cursor never moves back |
| HeapBlocks.ObjectArrayDumpExact | pyhprof/heap_blocks.py:162-169 | ObjectArrayDump.parse gives b exactly when b's fields (the count before the class id) and elements are encoded at the cursor |
| HeapBlocks.PrimitiveArrayDumpSpec | pyhprof/heap_blocks.py:179-186 | PrimitiveArrayDump.parse: id, serial, count and type, then count × type_size bytes skipped; the cursor never moves back |
| HeapBlocks.PrimitiveArrayDumpRead | pyhprof/heap_blocks.py:179-186 | a primitive array that parses is valid and laid out at the cursor |
| HeapBlocks.PrimitiveArrayDumpParse | pyhprof/heap_blocks.py:179-186 | a laid-out primitive array is parsed back |
| HeapBlocks.PrimitiveArrayDumpExact | pyhprof/heap_blocks.py:179-186 | PrimitiveArrayDump.parse gives b exactly when b's fields are encoded at the cursor and type_size × size bytes are skipped after them |
| HeapBlocks.RootIdSpec | pyhprof/heap_blocks.py:9-11 | the parse of a root that holds only an id; the cursor never moves back (RootParseExact gives the iff) |
| HeapBlocks.ThreadRootSpec | pyhprof/heap_blocks.py:19-21 | BaseThreadHeapDumpBlock.parse (RootNativeStack, RootThreadBlock) reads the id and the i4 serial, then fails in its super call with TypeError; the cursor never moves back |
| HeapBlocks.ThreadFrameRootSpec | pyhprof/heap_blocks.py:29-31 | BaseThreadFrameHeadDumpBlock.parse (RootJniLocal, RootJavaFrame), and RootThreadObject.parse at lines 78-79, read id, i4, i4, then fail with TypeError; the cursor never moves back |
| HeapBlocks.ThreadRootsRaise | pyhprof/heap_blocks.py:13-31 | a thread root or thread-frame root raises TypeError exactly when all its fields are there, after reading them, and otherwise raises the error of the first failing read |
| HeapBlocks.RaisingParse | pyhprof/heap_blocks.py:37-45 | the roots that cannot be built always fail; RootJniGlobal raises AttributeError before reading |
| HeapBlocks.RootParseExact | pyhprof/heap_blocks.py:9-11 | an id-only root parses to b exactly when b's id is encoded at the cursor |
| HeapBlocks.ParseSpec | pyhprof/heap_blocks.py:188-202 | the parse of each class of HEAP_BLOCK_CLASSES_BY_TAG; the cursor never moves back |
| HeapBlocks.ParseExact | pyhprof/heap_blocks.py:188-202 | every class's parse gives b exactly when b is a valid block of that class laid out at the cursor |
| HeapBlocks.SubRecordSpec | pyhprof/parsers.py:169-177 | a sub-record read that gives a block has consumed at least one byte of the file |
| HeapBlocks.SubRecordExact | pyhprof/parsers.py:169-177 | read_next_block gives b exactly when b's tag byte and b are laid out at the cursor, short of the bound |
| HeapBlocks.SubRecordEnds | pyhprof/parsers.py:169-177 | read_next_block returns None exactly at the bound or after a byte that is no sub-tag |
| HeapBlocks.WalkSpec | pyhprof/parsers.py:100-108 | the blocks the iteration yields and the exception that ends it; its properties are stated by WalkStep, WalkLaid and WalkDump |
| HeapBlocks.WalkStep | pyhprof/parsers.py:100-108 | the iteration yields a laid-out block and then continues behind it |
| HeapBlocks.WalkLaid | pyhprof/parsers.py:100-108 | laid-out blocks are yielded in order before anything else |
| HeapBlocks.WalkDump | pyhprof/parsers.py:100-108 | blocks laid out up to the bound or a non-tag byte are yielded exactly, with nothing raised |
| HeapBlocks.ReadConstant | pyhprof/heap_blocks.py:117-122 | as EntrySpec for constants |
| HeapBlocks.ReadStaticField | pyhprof/heap_blocks.py:124-129 | as EntrySpec for static fields |
| HeapBlocks.ReadInstanceField | pyhprof/heap_blocks.py:131-135 | as EntrySpec for instance fields |
| HeapBlocks.ReadEntry | pyhprof/heap_blocks.py:117-135 | as EntrySpec for the kind asked for |
| HeapBlocks.ReadEntries | pyhprof/heap_blocks.py:111-113 | n entry reads in a loop, as EntriesSpec |
| HeapBlocks.ReadList | pyhprof/heap_blocks.py:111-113 | an i2 count, then that many entries, as ListSpec |
| HeapBlocks.ParseClassDump | pyhprof/heap_blocks.py:100-115 | as ClassDumpSpec |
| HeapBlocks.ParseInstanceDump | pyhprof/heap_blocks.py:145-152 | as InstanceDumpSpec |
| HeapBlocks.ParseObjectArrayDump | pyhprof/heap_blocks.py:162-169 | as ObjectArrayDumpSpec, the elements read in a loop |
| HeapBlocks.ParsePrimitiveArrayDump | pyhprof/heap_blocks.py:179-186 | as PrimitiveArrayDumpSpec |
| HeapBlocks.Parse | pyhprof/heap_blocks.py:188-202 | the parse of each class, as ParseSpec |
| HeapBlocks.ParseRootId | pyhprof/heap_blocks.py:9-11 | as RootIdSpec |
| HeapBlocks.ParseThreadRoot | pyhprof/heap_blocks.py:19-21 | as ThreadRootSpec |
| HeapBlocks.ParseThreadFrameRoot | pyhprof/heap_blocks.py:29-31 | as ThreadFrameRootSpec |
| HeapBlocks.ReadNextSubRecord | pyhprof/parsers.py:169-177 | as SubRecordSpec |
| HeapBlocks.Iterate | pyhprof/parsers.py:100-108 | the blocks, the exception and the cursor are those of WalkSpec; EOFError ends silently |
| References.BuildFromInstanceDump | pyhprof/references.py:61-73 | the loop over instance fields, as InstanceFrom |
| References.FieldsFrom | pyhprof/references.py:65-72 | the loop of build_from_instance_dump from field i on; its properties are stated by FieldsFail, FieldsFailWith and FieldsStore |
| References.InstanceFrom | pyhprof/references.py:61-73 | the reference build_from_instance_dump returns or the error it raises; stated by InstanceSize |
| References.FieldsFail | pyhprof/references.py:65-72 | the field walk fails exactly when some field is no (name_id, tp) pair, or is an object field whose 8 bytes are missing or whose name is no string |
| References.FieldsFailWith | pyhprof/references.py:65-72 | a failing walk raises ValueError, struct.error or KeyError for the first field that ends it |
| References.FieldsStore | pyhprof/references.py:65-72 | a successful walk stores under each name the id of the last object field of that name, at that field's offset |
| References.InstanceSize | pyhprof/references.py:61-73 | an instance reference names its class, has the length of its bytes as base size, and its children are the last stores per name |
| References.ObjectArrayOf | pyhprof/references.py:79-84 | the base size of an object array is ARRAY_OVERHEAD + 8 per element |
| References.ObjectArrayChildren | pyhprof/references.py:83 | an object array's children are its indices, each once, holding the elements in order |
| References.PrimitiveArrayOf | pyhprof/references.py:90-97 | the base size of a primitive array is ARRAY_OVERHEAD + element size × count; it has no children |
| References.ResolveSlot | pyhprof/references.py:26 | `references.get(c)` for one children value: a raw id in the table finds its reference, anything else gives None |
| References.Resolve | pyhprof/references.py:24-26 | every children value looked up, the keys untouched; stated by ResolveGet and ResolveTwice |
| References.ResolveChildren | pyhprof/references.py:24-26 | every children value rewritten in place, as Resolve |
| References.ResolveGet | pyhprof/references.py:24-26 | resolution keeps the keys and maps each raw id to its reference, or to None when the table has none |
| References.ResolveTwice | pyhprof/references.py:24-26 | resolving twice leaves every child None |
| References.Scan | pyhprof/references.py:34-37 | the inner loop of bfs_children from index i on; stated by ScanGrows, ScanCovers and ScanOnce |
| References.Step | pyhprof/references.py:31-37 | one round of the outer loop: the head leaves the queue, is yielded, and its children are scanned; StepDecreases shows it makes progress |
| References.ScanGrows | pyhprof/references.py:34-37 | the scan of n's children only adds to seen and to the end of the queue; it queues only unseen non-None children; it adds n to seen as written, and the queued children as corrected |
| References.ScanCovers | pyhprof/references.py:34-37 | after the scan, every non-None child is queued or was already seen |
| References.ScanOnce | pyhprof/references.py:34-37 | as corrected, the scan adds to seen exactly what it queues, and queues nothing twice |
| References.Run | pyhprof/references.py:31-37 | the outer loop runs until the queue is empty |
| References.StepDecreases | pyhprof/references.py:31-37 | each round of the loop makes progress, so the generator ends on every finite graph |
| References.BfsSpec | pyhprof/references.py:28-37 | what bfs_children yields from the root; stated by BfsSound, BfsComplete, BfsOnce and BfsReachable |
| References.BfsChildren | pyhprof/references.py:28-37 | the generator's output, as BfsSpec for the mark chosen |
| References.ScanChildren | pyhprof/references.py:34-37 | the inner loop, as Scan |
| References.RunYields | pyhprof/references.py:31-33 | each node is yielded when it leaves the queue, in queue order |
| References.BfsSound | pyhprof/references.py:28-37 | the root is yielded first, and only nodes reachable from it are yielded |
| References.BfsComplete | pyhprof/references.py:28-37 | every node reachable from the root is yielded |
| References.BfsOnce | pyhprof/references.py:28-37 | with the child added to seen, no node is yielded twice |
| References.BfsReachable | pyhprof/references.py:28-37 | the corrected traversal yields each reachable object exactly once |
| References.CountDeepChildren | pyhprof/references.py:39-40 | the number of objects reachable from the root |
| References.ComputeDeepSize | pyhprof/references.py:42-43 | the sum of the base sizes of what the corrected traversal yields, each reachable object once |
| References.BfsTwice | pyhprof/references.py:36 | as written, a root with two fields holding one child yields [root, child, child] and counts 56 bytes, not 40 |
| References.BfsTwiceCorrected | pyhprof/references.py:36 | corrected, that root yields [root, child] |
| ReferenceBuilding.HeaderAdvances | pyhprof/parsers.py:128-136 | a record header that reads starts inside the file and moves the cursor forward |
| ReferenceBuilding.VisitSpec | pyhprof/references.py:131-134 | a visited record leaves the file cursor where it was and only adds keys to the two tables |
| ReferenceBuilding.HprofSpec | pyhprof/references.py:122-135 | the loop of read_hprof from a cursor and two tables; stated by HprofRead, HprofExact, HprofNoHeapDump and HprofGrows |
| ReferenceBuilding.ReadHprofSpec | pyhprof/references.py:120-135 | read_hprof from an HProfParser opened at the start of the file; stated as HprofSpec |
| ReferenceBuilding.HeaderLaidRead | pyhprof/parsers.py:128-136 | a record header laid out in nine bytes reads back as itself, and the cursor moves past its payload to the next record |
| ReferenceBuilding.HeaderShort | pyhprof/parsers.py:128-131 | with fewer than nine bytes left, the record header read raises EOFError |
| ReferenceBuilding.HprofHere | pyhprof/references.py:124-130 | at a HEAP_DUMP record read_hprof returns it, its nine header bytes laid out at the cursor and the tables unchanged |
| ReferenceBuilding.HprofStep | pyhprof/references.py:122-134 | at a record other than HEAP_DUMP, read_hprof goes on at the next record with the tables its visit leaves, or raises what its payload read raises |
| ReferenceBuilding.HprofSkips | pyhprof/references.py:122-134 | over records laid out one after another, none a HEAP_DUMP, read_hprof goes on at the record after them with the tables visiting them leaves, or raises the first payload exception |
| ReferenceBuilding.HprofLaid | pyhprof/references.py:120-134 | records laid out in front of a HEAP_DUMP record, none a HEAP_DUMP and all readable, make read_hprof return that record, with the tables their visits leave |
| ReferenceBuilding.HprofNoHeapDump | pyhprof/references.py:120-135 | records laid out up to the end of the file, none a HEAP_DUMP, end read_hprof in AssertionError, with the tables their visits leave |
| ReferenceBuilding.HprofRead | pyhprof/references.py:120-134 | when read_hprof returns a record, it is a HEAP_DUMP record laid out after records that are no HEAP_DUMP, and visiting those leaves the tables it returns |
| ReferenceBuilding.HprofExact | pyhprof/references.py:120-134 | read_hprof returns the record at start with given tables exactly when it is the first HEAP_DUMP record laid out and visiting the records before it leaves those tables |
| ReferenceBuilding.VisitAllStrings | pyhprof/references.py:131-132 | after the records are visited, strings maps each id to the contents of the last STRING record with that id; other keys keep what they had or stay absent |
| ReferenceBuilding.VisitAllClassNames | pyhprof/references.py:133-134 | after the records are visited, class_name_ids maps each class id to the name id of the last LOAD_CLASS record for it; other keys keep what they had or stay absent |
| ReferenceBuilding.HprofGrows | pyhprof/references.py:120-135 | read_hprof only adds strings and class-name ids |
| ReferenceBuilding.RefsSpec | pyhprof/references.py:137-157 | the loop of read_references over the heap-dump iteration; stated by RefsWalk and RefsKeys |
| ReferenceBuilding.Apply | pyhprof/references.py:144-157 | one element entered into the classes or the references, or the KeyError of a missing string, class name or class; stated by ApplyKeys and ApplyAllKeys |
| ReferenceBuilding.RefsWalk | pyhprof/references.py:137-157 | read_references enters exactly the elements the heap-dump iteration yields, up to the first that cannot be entered |
| ReferenceBuilding.ApplyPrimitiveArraySize | pyhprof/references.py:156-157 | a primitive array is entered with no children, its count, and a base size of ARRAY_OVERHEAD plus the TYPE_SIZES width (the id size for OBJECT) per element |
| ReferenceBuilding.ApplyKeys | pyhprof/references.py:144-157 | entering an element adds its id to the classes (a class dump) or the references (an instance or array dump), and changes nothing else's keys |
| ReferenceBuilding.ApplyAllKeys | pyhprof/references.py:141-157 | entering a run of elements adds exactly their ids to the two tables |
| ReferenceBuilding.LinkParents | pyhprof/references.py:114-115 | every class's parent looked up among the references; stated by LinkParentsLinked |
| ReferenceBuilding.ResolveAll | pyhprof/references.py:116-117 | every reference's children resolved; stated by ResolveAllGraph |
| ReferenceBuilding.Finish | pyhprof/references.py:111-118 | the end of build after the second pass; stated by FinishGraph |
| ReferenceBuilding.BuildSpec | pyhprof/references.py:111-118 | build: read_hprof, read_references, then the linking and resolving; stated by BuildKeys |
| ReferenceBuilding.ResolveAllGraph | pyhprof/references.py:116-117 | resolving every reference keeps the ids, the sizes and the child keys, and leaves a graph whose children are resolved to references of the table |
| ReferenceBuilding.LinkParentsLinked | pyhprof/references.py:114-115 | every class gets linked to the reference of its parent class id, or to None when there is none |
| ReferenceBuilding.FinishGraph | pyhprof/references.py:111-118 | after a clean second pass, build returns a resolved graph, every class is linked into it, and no table loses a key |
| ReferenceBuilding.RefsKeys | pyhprof/references.py:137-157 | a clean second pass from empty tables holds exactly the ids of the dumped instances and arrays, and of the dumped classes |
| ReferenceBuilding.BuildKeys | pyhprof/references.py:111-157 | a build that succeeds from empty tables returns a table keyed by exactly the ids of the instance and array dumps read from the first HEAP_DUMP's payload on, its classes keyed by exactly the class dumps' ids |
| ReferenceBuilding.ReferenceBuilder.constructor | pyhprof/references.py:104-109 | a builder over f with four empty tables |
| ReferenceBuilding.ReferenceBuilder.ReadHprof | pyhprof/references.py:120-135 | the HEAP_DUMP record found, the exception raised, the tables and the cursor are those of ReadHprofSpec: after the file header, the loop HprofExact, HprofNoHeapDump, VisitAllStrings and VisitAllClassNames characterise |
| ReferenceBuilding.ReferenceBuilder.ReadRecords | pyhprof/references.py:122-135 | the loop of read_hprof, as HprofSpec |
| ReferenceBuilding.ReferenceBuilder.ReadRecord | pyhprof/references.py:123-134 | one round of the loop: continue with less file remaining, break to `assert 0` on EOFError, or return |
| ReferenceBuilding.ReferenceBuilder.Visit | pyhprof/references.py:131-134 | a STRING or LOAD_CLASS record entered as VisitSpec says, any other record passed over |
| ReferenceBuilding.ReferenceBuilder.VisitString | pyhprof/references.py:131-132 | the contents stored under the id, or the payload's exception with the strings unchanged |
| ReferenceBuilding.ReferenceBuilder.VisitLoadClass | pyhprof/references.py:133-134 | the class name id stored under the class id, or the payload's exception with the table unchanged |
| ReferenceBuilding.ReferenceBuilder.Record | pyhprof/references.py:144-157 | one element entered as Apply says; a KeyError leaves the tables as they were |
| ReferenceBuilding.ReferenceBuilder.ReadReferences | pyhprof/references.py:137-157 | the exception, the tables and the cursor are those of RefsSpec from the heap dump's start |
| ReferenceBuilding.ReferenceBuilder.LinkClasses | pyhprof/references.py:114-115 | every class linked, as LinkParents |
| ReferenceBuilding.ReferenceBuilder.ResolveReferences | pyhprof/references.py:116-117 | every reference's children resolved, as ResolveAll |
| ReferenceBuilding.ReferenceBuilder.Build | pyhprof/references.py:111-118 | the result, the tables and the cursor are those of BuildSpec |
| ReferenceGraph.NatStrValue | pyhprof/reference_graph.py:75 | `%d` of a natural number is its decimal digits, with no leading zero, whose value is the number |
| ReferenceGraph.MemStr | pyhprof/reference_graph.py:73-81 | mem_str, a count of bytes below 1000 in B, otherwise truncated to whole K, M or G; stated by MemStrMeaning |
| ReferenceGraph.MemStrMeaning | pyhprof/reference_graph.py:73-81 | mem_str(n) is a decimal q followed by B, K, M or G such that the unit × q ≤ n < the unit × (q + 1), with q < 1000 below G and n at least the unit above B |
| ReferenceGraph.ConcatSnoc | pyhprof/reference_graph.py:92 | joining one more piece appends it |
| ReferenceGraph.SplitFrom | pyhprof/reference_graph.py:83-92 | the loop of split_name from a line length on; stated by SplitStep and SplitLayout |
| ReferenceGraph.SplitStep | pyhprof/reference_graph.py:86-91 | one character of the loop emits its break and itself in front of the rest |
| ReferenceGraph.SplitName | pyhprof/reference_graph.py:83-92 | the loop builds the name as SplitFrom |
| ReferenceGraph.SplitLayout | pyhprof/reference_graph.py:83-92 | the result is the name's characters split into lines joined by "-\n"; every line but the last runs past the limit; every later line starts with an upper-case letter or '<'; and no such character past the limit was left without a break before it |
| ReferenceGraph.ChildIn | pyhprof/reference_graph.py:17 | a child of a resolved graph is a reference of the table or None |
| ReferenceGraph.GenericGetElements | pyhprof/reference_graph.py:11-12 | generic_get_elements: always the empty list |
| ReferenceGraph.HashMapSpec | pyhprof/reference_graph.py:15-30 | hash_map_get_elements; stated by EntriesBound, EntriesMembers and HashMapElements |
| ReferenceGraph.HashMapGetElements | pyhprof/reference_graph.py:15-30 | the loop over the table's entries, as HashMapSpec |
| ReferenceGraph.EntriesBound | pyhprof/reference_graph.py:21-29 | there are at most as many pairs as table slots |
| ReferenceGraph.EntriesMembers | pyhprof/reference_graph.py:21-29 | a pair is collected exactly when some slot holds an entry with both a key and a value that are that pair |
| ReferenceGraph.HashMapElements | pyhprof/reference_graph.py:15-30 | no table gives the generic empty list; a None table raises AttributeError; otherwise the pairs are those of the table's entries that have a key and a value |
| ReferenceGraph.KeysMembers | pyhprof/reference_graph.py:38 | the keys are one per pair, and k is among them exactly when some pair starts with k |
| ReferenceGraph.HashSetGetElements | pyhprof/reference_graph.py:33-38 | hash_set_get_elements; stated by KeysMembers and HashSetElements |
| ReferenceGraph.HashSetElements | pyhprof/reference_graph.py:33-38 | no map gives the empty list; a None map raises AttributeError; otherwise the elements are exactly the keys of the map's pairs |

## Left out

- Closing files, `__str__` and `timestamp` of the blocks, `JavaClass.__str__` and the progress `print` of `read_references`: they only format or print.
- The class `ReferenceGraphBuilder` beyond `mem_str` and `split_name` (`build`, `rec`, `create_graphviz`, `ref_name`, `get_size` and the node and edge lines): it renders Graphviz text from object identities (`id(r)`), which have no counterpart in the model. Its two collection accessors are modelled on their own.
- Float and double values: `read_float` and `read_double` unpack in native byte order. The model keeps their raw bytes.
- `Utf8.Decode`: Python 2's UTF-8 codec also accepts encoded surrogate code points. The model decodes strict RFC 3629 UTF-8, so such names stay raw bytes.
- Python 2 dict iteration order is hash order. Children dicts keep insertion order in the model, and classes and references are maps.
- `References.ResolveChildren`: resolution is modelled on values, with the arena's ids standing for object identity. It does not model aliasing between references that share a children dict. Only an empty primitive array's default dict is shared, and it is never mutated.
- `ReferenceGraph.MemStrMeaning`: `n / 1000` is true division followed by `%d`, which truncates. The model uses exact integer division and states its meaning for non-negative sizes. Double-precision rounding is not modelled. Python's integer true division is correctly rounded. Dividing by d = 1000, 10^6 or 10^9, the exact quotient of n lies at least 1/d below the next integer. Half a unit in the last place of a double near k is at most k / 2^53. So the two agree whenever n + d <= 2^53, which covers every size below 2^52 bytes (about 4.5 * 10^15). Only in the G band, above that, can the quotient round up to the next integer and `%d` print one more than the model.
- `ReferenceGraph.SplitLayout`: `isupper()` is modelled as ASCII 'A'..'Z'. Upper-case letters outside ASCII are not breakable in the model.
- `ReferenceGraph.HashMapElements` and `ReferenceGraph.HashSetElements`: they assume a fully resolved graph and an id in the table. Calling them on a reference that is not a graph node, or before resolution, is not modelled.
- `References.BfsChildren`: it takes a resolved graph, which is what `build` leaves. On an unresolved dict the source would call `.children` on an integer.
- HEAP_DUMP_SEGMENT records are never read as heap dumps, as in the code.
- `read_value`'s `raise ValueError` for an unknown type name (`pyhprof/parsers.py:91-92`) and `type_size`'s KeyError from TYPE_SIZES (`pyhprof/parsers.py:98`): every type name comes from `read_value_type`, which only returns names of the TYPES table, so neither branch is reachable. `Decoding.ValueSpec` and `Decoding.TypeSize` take a `BasicType` and have no such branch.

## Findings

| source | as written | input that shows it | evidently intended | confidence | as-written member | corrected member |
|---|---|---|---|---|---|---|
| pyhprof/references.py:36 | `bfs_children` adds `n`, the node being scanned, to `seen` when it queues a child, so a child that several fields reach is queued and yielded once per field | a root with two fields holding the same child yields [root, child, child]; with base sizes 24 and 16, `compute_deep_size` gives 56 instead of 40 | `seen.add(child)`: each reachable object is yielded, and its size counted, once | high; not executed | References.BfsTwice | References.BfsReachable |

`References.BfsChildren` takes a `Mark` that chooses between the two ways of filling `seen`. `MarkParent` adds the scanned node, as the code does. `MarkChild` adds the child, as intended. `References.CountDeepChildren` and `References.ComputeDeepSize` run the corrected traversal, so they depart from the code on graphs where one object is reached through several fields.
