# rosbag2peek core in Dafny

A model of the core of `rospeek`, a viewer for ROS 2 bag files, with proofs
about it. It covers:

- **Schema parsing** (`schema.rs`): finding an IDL file, parsing the field
  lines of a ROS IDL text, and classifying a type declaration as a single
  value, an array or a sequence.
- **CDR decoding** (`cdr.rs`): decoding a CDR payload, field by field, into
  a JSON-like value.
- **Message filters** (`reader.rs`): the timestamp filters of `BagReader`,
  the bag duration, and the seconds/nanoseconds split of a timestamp.
- **GUI backend** (`backend.rs`): the page of messages the GUI backend
  returns, and the choice of storage reader from the bag's file extension.
- **Hex dump** (`app.rs`): the hex dump the GUI shows for a raw message.
- **CLI** (`main.rs`): how `info` groups and orders topics, how many lines
  `show` prints, and the file name `dump` writes.

Everything is pure. Work the program does through the outside world is a
parameter:

| outside-world action | parameter |
|---|---|
| read a topic's messages | `read` |
| open a `.db3` or `.mcap` bag | `openDb3`, `openMcap` |
| look up a nested type's schema | `resolve` |
| test whether a file exists | `fileExists` |
| read `AMENT_PREFIX_PATH` | `amentPrefixPath` |
| shell-expand a path | `expand` |
| read a file | `readFile` |

Modules, one per file:

| module | covers |
|---|---|
| `Errors` | `Result`, `Option` and the crate's error kinds |
| `Bytes` | bytes, little-endian words, two's complement |
| `Utf8` | RFC 3629 UTF-8, as `String::from_utf8` accepts it |
| `Strings` | split, join, trim, replace, and the order `String::cmp` uses |
| `Seqs` | filter, take, and the subsequence relation |
| `Model` | `Topic` and `RawMessage` |
| `Schema` | `schema.rs` |
| `Cdr` | `cdr.rs` |
| `CdrRoundTrip` | an encoder, and the proof that decoding inverts it |
| `CdrExamples` | the crate's Time/Duration tests, and the time type names |
| `CdrRecursion` | how deep the decoder descends before it reads a byte |
| `Reader` | `reader.rs` |
| `Backend` | `backend.rs` |
| `HexDump` | `dump_bytes` in `app.rs` |
| `Cli` | `main.rs` |

### Decoding and nesting

The decoder reads from an explicit position and returns the value together
with the position after it. A nested type is decoded with the schema that
`resolve` gives for its name.

The recursion through nested types is well founded only when a rank on type
names decreases from each type to the types of its fields (`Cdr.Ranked`).
`Cdr.Decode` and everything built on it require a ranked resolver, which
excludes every type that contains itself. The source has no such guard.
What it does with such a type depends on where the self-reference sits:

- a type whose first field is its own type makes it descend without reading
  a byte, until the stack runs out (see Findings);
- a type that reads bytes before the self-reference, such as
  `{int32 x; A a;}`, stops with an end-of-file error once the buffer runs out;
- a self-reference through a `sequence<…>` field stops at a count of 0.

The model covers none of these three cases.

## Model

| member | source | states |
|---|---|---|
| Cdr.ReadUnsigned | crates/rospeek-core/src/cdr.rs:97-130 | reading an n-byte unsigned word succeeds exactly when n bytes remain, advances the cursor by n and yields a value below 256^n; otherwise it is an end-of-file error |
| Cdr.ReadUnsignedEncoded | crates/rospeek-core/src/cdr.rs:107-130 | the word read is v exactly when the n bytes at the cursor are v's little-endian encoding |
| Cdr.ReadSigned | crates/rospeek-core/src/cdr.rs:103-135 | reading an n-byte signed word succeeds exactly when n bytes remain, and the value lies in the two's-complement range of n bytes |
| Cdr.ReadSignedEncoded | crates/rospeek-core/src/cdr.rs:112-135 | the signed word read is v exactly when the bytes are the little-endian two's-complement encoding of v |
| Bytes.LittleEndianRoundTrip | crates/rospeek-core/src/cdr.rs:117-120 | `from_le_bytes` inverts the n-byte little-endian encoding of every value below 256^n |
| Bytes.LittleEndianBijective | crates/rospeek-core/src/cdr.rs:117-120 | every byte string is the encoding of the word `from_le_bytes` reads from it |
| Bytes.FromSigned | crates/rospeek-core/src/cdr.rs:122-125 | reinterpreting a signed value as its unsigned bit pattern gives a word that the two's-complement reading maps back to the value |
| Bytes.SignedBijective | crates/rospeek-core/src/cdr.rs:122-125 | the two's-complement reading of n-byte words is a bijection |
| Cdr.Classify | crates/rospeek-core/src/cdr.rs:38-66 | every type name takes one arm of `decode_primitive`; all arms except the nested one read bytes without a schema lookup |
| Cdr.ClassifyListed | crates/rospeek-core/src/cdr.rs:38-61 | a listed name takes the arm of its first listing |
| Cdr.ClassifyUnlisted | crates/rospeek-core/src/cdr.rs:62-66 | a name that is not listed is decoded as a nested message |
| Cdr.StripTerminator | crates/rospeek-core/src/cdr.rs:156-158 | exactly one byte is dropped when, and only when, the last byte is 0 |
| Cdr.DecodeTextSpec | crates/rospeek-core/src/cdr.rs:156-159 | the payload without one trailing 0 is text exactly when it is UTF-8; the text encodes back to exactly those bytes, and otherwise the error is `InvalidData` carrying them |
| Cdr.StringAtSpec | crates/rospeek-core/src/cdr.rs:154-159 | fewer than `len` payload bytes is an end-of-file error; otherwise the read ends exactly after the `len` bytes, succeeds exactly when the payload without its one trailing NUL is UTF-8 (the text then encoding back to exactly those bytes), and otherwise fails with `InvalidData` carrying them |
| Cdr.DecodeString | crates/rospeek-core/src/cdr.rs:152-160 | a string needs its 4-byte length, or it is an end-of-file error; success ends after the length word and within the buffer |
| Cdr.DecodeStringPayload | crates/rospeek-core/src/cdr.rs:152-160 | once the u32 length word `L` is there, the string is exactly the read of the `L` bytes behind it, so by `Cdr.StringAtSpec` fewer than `L` remaining bytes is an end-of-file error, a success ends exactly `4 + L` bytes on and encodes back to the payload without its terminator, and the result is `InvalidData` carrying that payload exactly when it is not UTF-8 |
| Cdr.DecodeFixed | crates/rospeek-core/src/cdr.rs:86-150 | a fixed-width value succeeds exactly when its width fits the buffer and advances by that width; otherwise it is an end-of-file error. A `boolean` is true exactly when its byte is non-zero, a `char` is its byte as a code point, integers are the little-endian word (two's complement for the signed ones), and floats keep their raw bytes |
| Cdr.DecodeBuiltin | crates/rospeek-core/src/cdr.rs:38-61 | the direct arms never yield a list; an unsigned value is non-negative; a time value is an object read from exactly 8 bytes; a string needs at least its length word |
| Cdr.Decode | crates/rospeek-core/src/cdr.rs:21-33 | a decoded message is an object with exactly one key per field name, ending within the buffer |
| Cdr.DecodeFields | crates/rospeek-core/src/cdr.rs:24-31 | the fields yield one value each, in order, and a value is a list exactly when its field is an array or a sequence |
| Cdr.DecodeFieldsAppend | crates/rospeek-core/src/cdr.rs:24-31 | decoding fields `a + b` decodes `a`, then `b` from where `a` ended, and joins the values; the first error met, in `a` or in `b`, is the result |
| Cdr.DecodeFirstError | crates/rospeek-core/src/cdr.rs:24-28 | when the fields before field `i` decode and field `i` fails, the message fails with field `i`'s error, whatever follows it |
| Cdr.DecodeField | crates/rospeek-core/src/cdr.rs:70-82 | an array of length n yields n items; a sequence reads its u32 count first and yields that many items, or an end-of-file error when the count is missing |
| Cdr.DecodeElements | crates/rospeek-core/src/cdr.rs:77-81 | the element loop yields exactly `count` values, none of them a list |
| Cdr.DecodeElement | crates/rospeek-core/src/cdr.rs:62-66 | a nested element passes on the resolver's error unchanged, and otherwise yields an object keyed by the nested schema's field names |
| Cdr.InsertAllFacts | crates/rospeek-core/src/cdr.rs:30 | inserting the fields in order leaves every field name bound to the value of its last field with that name, and leaves other keys alone |
| CdrRoundTrip.MessageRoundTrip | crates/rospeek-core/src/cdr.rs:21-33 | decoding an encoded message at any position gives the message back and stops right after its encoding |
| CdrRoundTrip.FieldsRoundTrip | crates/rospeek-core/src/cdr.rs:24-31 | decoding encoded fields gives each field's value back, in order |
| CdrRoundTrip.FieldRoundTrip | crates/rospeek-core/src/cdr.rs:70-82 | decoding an encoded field (single value, array or sequence) gives the value back |
| CdrRoundTrip.SequenceRoundTrip | crates/rospeek-core/src/cdr.rs:73 | a sequence encoded with its u32 count decodes back to its items |
| CdrRoundTrip.ElementsRoundTrip | crates/rospeek-core/src/cdr.rs:77-81 | decoding `count` encoded elements gives the items back |
| CdrRoundTrip.BuiltinRoundTrip | crates/rospeek-core/src/cdr.rs:38-61 | every directly decoded arm inverts its encoding |
| CdrRoundTrip.StringRoundTrip | crates/rospeek-core/src/cdr.rs:152-160 | a length-prefixed, NUL-terminated UTF-8 string decodes back to the text |
| CdrRoundTrip.TimeRoundTrip | crates/rospeek-core/src/cdr.rs:54-61 | an int32 `sec` followed by a uint32 `nanosec` decodes back to the time object |
| CdrRoundTrip.SignedRoundTrip | crates/rospeek-core/src/cdr.rs:122-125 | the two's-complement encoding of an in-range integer decodes back to it |
| Utf8.DecodeValid | crates/rospeek-core/src/cdr.rs:159 | `String::from_utf8` succeeds exactly on well-formed RFC 3629 UTF-8 |
| Utf8.DecodeEncode | crates/rospeek-core/src/cdr.rs:159 | every text survives encoding and decoding |
| Utf8.EncodeDecode | crates/rospeek-core/src/cdr.rs:159 | every well-formed byte string is the encoding of its decoding |
| CdrExamples.TestFromStart | crates/rospeek-core/tests/test_cdr.rs:28-33 | decoding the test buffer from where `new` starts gives sec = 256 and nanosec = 722 |
| CdrExamples.TestAfterHeader | crates/rospeek-core/tests/test_cdr.rs:5-9 | from offset 4 the same buffer gives sec = 722 and nanosec = 5000, ending at byte 12 |
| CdrExamples.HeaderRoundTrip | crates/rospeek-core/tests/test_cdr.rs:5-9 | whatever the 4 header bytes, decoding past them gives an encoded message back |
| CdrExamples.TestDecodeAfterHeader | crates/rospeek-core/tests/test_cdr.rs:32-33 | decoding past the header gives the values the tests expect |
| CdrExamples.DecodeTimeLayout | crates/rospeek-core/tests/test_cdr.rs:14-26 | the hand-built `{sec: int32, nanosec: uint32}` schema decodes as the time arm does |
| CdrExamples.DurationIsTime | crates/rospeek-core/src/cdr.rs:56 | `builtin_interfaces/msg/Duration` is read in place as a time value |
| CdrExamples.TimeIsNested | crates/rospeek-core/src/cdr.rs:54-57 | `builtin_interfaces/msg/Time` is not a listed time name, so it is decoded as a nested message |
| CdrExamples.TimeFieldWithoutIdl | crates/rospeek-core/src/cdr.rs:63-65 | without installed IDL files, a `builtin_interfaces/msg/Time` field fails with IdlNotFound |
| CdrExamples.NestedTimeAgrees | crates/rospeek-core/src/cdr.rs:63-65 | when the Time IDL resolves to `{sec: int32, nanosec: uint32}`, the nested decode equals the time arm |
| CdrExamples.IntendedTime | crates/rospeek-core/src/cdr.rs:54-57 | with the corrected table, `builtin_interfaces/msg/Time` takes the time arm |
| CdrExamples.IntendedAgrees | crates/rospeek-core/src/cdr.rs:38-66 | the corrected table agrees with the written one on every other name |
| CdrRecursion.RankedSettles | crates/rospeek-core/src/cdr.rs:63-65 | for a ranked resolver, the chain of first-field nested types from a type ends within rank + 1 lookups. It ends at a first field the decoder does not descend into straight away (a built-in value, a sequence or an empty array), at an empty message, or at a resolver error |
| CdrRecursion.SelfReferenceNeverSettles | crates/rospeek-core/src/cdr.rs:63-65 | a type whose first field has its own type never reaches a byte read, whatever the bound |
| CdrRecursion.SelfReferenceUnranked | crates/rospeek-core/src/cdr.rs:63-65 | no rank orders a self-referential type |
| Schema.NormalizeScope | crates/rospeek-core/src/schema.rs:193 | the result has no `::`, and a name without `::` is unchanged |
| Schema.NormalizeScopeSplit | crates/rospeek-core/src/schema.rs:193 | each `::` becomes `/` and the text around it is normalised separately |
| Schema.FindArraySplit | crates/rospeek-core/src/schema.rs:191-192 | the array regex matches at one position at most, and the split found is that match |
| Schema.ParseUsizeOrZero | crates/rospeek-core/src/schema.rs:194-199 | an ASCII digit run below 2^64 gives its decimal value; a non-ASCII digit, or a value of 2^64 or more, gives 0 |
| Schema.ToFieldType | crates/rospeek-core/src/schema.rs:190-207 | a declaration is an array exactly when the `type__N` regex matches, a sequence when it does not but the text is `sequence<…>`, and otherwise a single value; each carries the type name with `::` replaced by `/` |
| Schema.ArrayDeclRoundTrip | crates/rospeek-core/src/schema.rs:191-200 | `base__N` with N below 2^64 gives the array of N elements of the normalised base |
| Schema.ArrayDeclOverflow | crates/rospeek-core/src/schema.rs:198-199 | `base__N` with N of 2^64 or more gives an array of length 0 |
| Schema.SequenceDeclRoundTrip | crates/rospeek-core/src/schema.rs:201-203 | `sequence<x>` gives a sequence of the normalised x |
| Schema.ArrayOfSequenceDecl | crates/rospeek-core/src/schema.rs:191-203 | the array rule wins over the sequence rule |
| Schema.NonAsciiDigitArray | crates/rospeek-core/src/schema.rs:191-199 | an Arabic-Indic digit matches `\d` but does not parse, so the array has length 0 |
| Schema.ParseLine | crates/rospeek-core/src/schema.rs:139-159 | a kept line ends in `;` after trimming, and the field name is non-empty with no whitespace |
| Schema.ParseFieldLine | crates/rospeek-core/src/schema.rs:141-159 | a padded `decl name;` line gives the field `name` with the type parsed from `decl` |
| Schema.ParseWordLine | crates/rospeek-core/src/schema.rs:147-150 | a line with one token before its semicolons gives no field |
| Schema.ParseLongLine | crates/rospeek-core/src/schema.rs:147-150 | a line with more than two tokens before its semicolons gives no field, whatever follows the first two |
| Schema.ParseConstLine | crates/rospeek-core/src/schema.rs:147-150 | the constant line `const uint8 FOO = 1;` gives no field |
| Schema.ParseSemicolonLine | crates/rospeek-core/src/schema.rs:140-150 | a line of nothing but semicolons is kept by the filter but has no token, so it gives no field |
| Schema.ParseLineUnterminated | crates/rospeek-core/src/schema.rs:142 | a line that does not end in `;` gives no field |
| Schema.ParseBlankLine | crates/rospeek-core/src/schema.rs:142 | a blank line gives no field |
| Schema.ParseFieldsAppend | crates/rospeek-core/src/schema.rs:144-160 | the fields of two blocks of lines are the fields of each, in order |
| Schema.ParseIdlText | crates/rospeek-core/src/schema.rs:139-165 | the schema carries the requested type name and has at most one field per line |
| Schema.ParseIdlLines | crates/rospeek-core/src/schema.rs:139-165 | a text of lines joined by newlines parses line by line |
| Schema.Float64Example | crates/rospeek-core/src/schema.rs:125-130 | the Float64 IDL gives exactly one field, `data` of type `double` |
| Schema.ParseIdlToSchema | crates/rospeek-core/src/schema.rs:132-137 | the result is Ok exactly when the path expands and the file reads; an expansion failure is `Other`, an unreadable file is an I/O error |
| Schema.FirstExisting | crates/rospeek-core/src/schema.rs:104-114 | the first candidate that exists is chosen, and none is chosen only when none exists |
| Schema.Candidates | crates/rospeek-core/src/schema.rs:104-109 | one candidate `<base>/share/<pkg>/msg/<name>.idl` per `:`-separated entry, in order |
| Schema.FindRosIdlPath | crates/rospeek-core/src/schema.rs:93-115 | no path without three parts, with a second part other than `msg`, or without the variable; otherwise the first existing candidate, or none when none exists |
| Schema.FindMessageIdl | crates/rospeek-core/src/schema.rs:93-115 | `pkg/msg/Name` finds `<base>/share/pkg/msg/Name.idl` when it exists |
| Schema.FindServiceIdl | crates/rospeek-core/src/schema.rs:99-101 | a `srv` type name finds nothing |
| Schema.TryFrom | crates/rospeek-core/src/schema.rs:31-36 | the error is IdlNotFound exactly when the lookup fails; any other error comes from expanding or reading the found path; a schema carries the requested name |
| Strings.SplitOn | crates/rospeek-core/src/schema.rs:94-97 | `split` gives at least one piece, no piece holds the separator, and joining the pieces rebuilds the text |
| Strings.SplitJoin | crates/rospeek-core/src/schema.rs:94-97 | splitting a join of separator-free pieces gives the pieces back |
| Strings.TrimPadded | crates/rospeek-core/src/schema.rs:141 | trimming removes exactly the whitespace padding around a word |
| Strings.TrimSlice | crates/rospeek-core/src/schema.rs:141 | the trimmed text is the slice after the leading whitespace |
| Strings.TrimEndCharPadded | crates/rospeek-core/src/schema.rs:147 | `trim_end_matches(';')` removes exactly the trailing run of semicolons |
| Strings.SplitWhitespaceTwo | crates/rospeek-core/src/schema.rs:147-148 | two words separated by whitespace split into exactly those two tokens |
| Reader.ReadMessagesSince | crates/rospeek-core/src/reader.rs:53-60 | a read error is passed on; otherwise the messages at or after `since` |
| Reader.ReadMessagesUntil | crates/rospeek-core/src/reader.rs:73-80 | a read error is passed on; otherwise the messages at or before `until` |
| Reader.ReadMessagesBetween | crates/rospeek-core/src/reader.rs:94-106 | a read error is passed on; otherwise the messages in the closed interval |
| Reader.SinceSpec | crates/rospeek-core/src/reader.rs:55-58 | a message is kept exactly when it is at or after `since`; order is kept; filtering again changes nothing |
| Reader.UntilSpec | crates/rospeek-core/src/reader.rs:75-78 | a message is kept exactly when it is at or before `until`; order is kept; filtering again changes nothing |
| Reader.BetweenSpec | crates/rospeek-core/src/reader.rs:101-104 | a message is kept exactly when it is in the interval; order is kept; filtering again changes nothing |
| Reader.BetweenIsSinceThenUntil | crates/rospeek-core/src/reader.rs:103 | the interval filter is the `since` filter then the `until` filter, in either order |
| Reader.BetweenInverted | crates/rospeek-core/src/reader.rs:103 | an interval with `since > until` keeps nothing |
| Reader.DurationNs | crates/rospeek-core/src/reader.rs:188-194 | the duration is 0 exactly when the end is not after the start, and otherwise the start plus the duration is the end |
| Reader.DurationShift | crates/rospeek-core/src/reader.rs:189-193 | the duration is unchanged by shifting both ends, and at most one direction is non-zero |
| Reader.DurationExample | crates/rospeek-core/src/reader.rs:186 | one minute apart gives 60 seconds |
| Reader.NsSplit | crates/rospeek-core/src/reader.rs:170-171 | seconds × 10^9 + nanoseconds is the timestamp, with nanoseconds below 10^9 |
| Reader.NsSplitUnique | crates/rospeek-core/src/reader.rs:170-171 | that split is the only one |
| Reader.NsSplitFits | crates/rospeek-core/src/reader.rs:170-171 | for a u64 timestamp, the `as i64` and `as u32` casts never truncate |
| Reader.NsSplitExample | crates/rospeek-core/src/reader.rs:167 | 1630456800000000000 ns is 1630456800 s and 0 ns |
| Backend.ReadMessagesPage | crates/rospeek-gui/src/backend.rs:43-59 | a read error is passed on; a page holds at most `limit` messages, all at or after the start bound |
| Backend.PageSpec | crates/rospeek-gui/src/backend.rs:51-56 | the page is the first min(limit, n) of the n retained messages, in order, and a subsequence of what was read |
| Backend.PageUnbounded | crates/rospeek-gui/src/backend.rs:54-56 | with no start bound and at most `limit` messages, the topic is returned whole |
| Backend.FileName | crates/rospeek-gui/src/backend.rs:63 | a file name is non-empty, not `.` or `..`, and holds no `/` |
| Backend.FileNameOf | crates/rospeek-gui/src/backend.rs:63 | the file name of `dir/name` is `name` |
| Backend.Extension | crates/rospeek-gui/src/backend.rs:63 | an extension holds no `.` and no `/` |
| Backend.ExtensionOf | crates/rospeek-gui/src/backend.rs:63 | the extension of `dir/stem.ext` is `ext` |
| Backend.NoExtension | crates/rospeek-gui/src/backend.rs:63 | a file name without `.` has no extension |
| Backend.CreateReader | crates/rospeek-gui/src/backend.rs:62-70 | `.db3` opens the SQLite reader, `.mcap` the MCAP reader, and anything else is an unsupported format naming the path |
| Backend.CreateReaderByExtension | crates/rospeek-gui/src/backend.rs:63-65 | `dir/stem.db3` and `dir/stem.mcap` open with their readers |
| Backend.CreateReaderNoExtension | crates/rospeek-gui/src/backend.rs:66 | a file name without an extension is refused |
| HexDump.Hex | crates/rospeek-gui/src/app.rs:315 | `{:0Nx}` gives at least N lower-case hex digits, and at least one |
| HexDump.HexRoundTrip | crates/rospeek-gui/src/app.rs:315 | reading the digits back gives the number |
| HexDump.HexWidth | crates/rospeek-gui/src/app.rs:315 | a number below 16^N takes exactly N digits |
| HexDump.Hex2 | crates/rospeek-gui/src/app.rs:324 | a byte is two hex digits that read back as the byte |
| HexDump.Cell | crates/rospeek-gui/src/app.rs:319-327 | a cell is 3 characters, or 5 when a bar-and-space separator precedes it (every fourth byte after the first) |
| HexDump.CellsLength | crates/rospeek-gui/src/app.rs:318-328 | n cells take 3n characters plus 2 per separator |
| HexDump.HexColumnLength | crates/rospeek-gui/src/app.rs:318-328 | the hex column is always 54 characters, full chunk or not |
| HexDump.CellAt | crates/rospeek-gui/src/app.rs:318-328 | cell i sits at its fixed offset in the column |
| HexDump.HexColumnDecodes | crates/rospeek-gui/src/app.rs:318-328 | at the offset of byte i is its two-digit hex, which reads back as the byte; past the chunk's end there are three spaces |
| HexDump.TextColumn | crates/rospeek-gui/src/app.rs:332-339 | one character per byte |
| HexDump.Shown | crates/rospeek-gui/src/app.rs:333-337 | a byte is shown as `.` or a graphic ASCII character |
| HexDump.TextColumnShows | crates/rospeek-gui/src/app.rs:333-337 | a graphic byte is shown as itself, and anything other than `.` is a graphic byte shown as itself |
| HexDump.TextColumnAt | crates/rospeek-gui/src/app.rs:332-339 | character i shows byte i |
| HexDump.Line | crates/rospeek-gui/src/app.rs:314-340 | a line ends in its only newline |
| HexDump.LineLayout | crates/rospeek-gui/src/app.rs:314-340 | a line is 8 offset digits that read back as index × 16, `: `, the 54-character hex column, a space, the text column and a newline |
| HexDump.ChunkCount | crates/rospeek-gui/src/app.rs:306-308 | there are ⌈n / 16⌉ chunks |
| HexDump.ChunksPartition | crates/rospeek-gui/src/app.rs:306-308 | the chunks concatenate back to the bytes; each has 1 to 16 bytes and only the last may be short |
| HexDump.DumpNewlines | crates/rospeek-gui/src/app.rs:340 | the dump has one newline per line shown |
| HexDump.DumpLineCount | crates/rospeek-gui/src/app.rs:305-343 | the dump shows min(⌈n / 16⌉, max_line) lines |
| HexDump.DumpEnding | crates/rospeek-gui/src/app.rs:309-312 | a dump cut short ends in `...`; a complete dump is empty or ends in a newline |
| HexDump.DumpTruncation | crates/rospeek-gui/src/app.rs:309-312 | `...` ends the dump exactly when there are more chunks than `max_line` |
| HexDump.DumpEdges | crates/rospeek-gui/src/app.rs:305-343 | no bytes give an empty dump; a line limit of 0 gives just `...` |
| HexDump.DumpSplit | crates/rospeek-gui/src/app.rs:308-341 | below the limit, the dump of a split list of chunks is the dump of each part |
| HexDump.RenderedAt | crates/rospeek-gui/src/app.rs:308-341 | line k of the dump follows the earlier lines and renders chunk k as line k |
| HexDump.HexColumnLoop | crates/rospeek-gui/src/app.rs:318-328 | the cell loop builds the hex column |
| HexDump.LineLoop | crates/rospeek-gui/src/app.rs:314-340 | the loop body builds the line |
| HexDump.DumpLoop | crates/rospeek-gui/src/app.rs:308-341 | the chunk loop with its early `...` break builds the dump |
| HexDump.DumpBytesLoop | crates/rospeek-gui/src/app.rs:305-343 | `dump_bytes` as written builds the dump |
| Cli.FirstNonEmpty | crates/rospeek-cli/src/main.rs:85 | the first non-empty piece, and none exactly when every piece is empty |
| Cli.NamespaceKey | crates/rospeek-cli/src/main.rs:82-87 | a key is `/` followed by text without `/` |
| Cli.NamespaceKeyRoot | crates/rospeek-cli/src/main.rs:87 | the key is `/` exactly when the topic name is all slashes, or empty |
| Cli.NamespaceKeyOf | crates/rospeek-cli/src/main.rs:82-87 | the key of `///seg/rest` is `/seg`, whatever the leading slashes |
| Cli.Keys | crates/rospeek-cli/src/main.rs:80-89 | the map's keys are exactly the topics' keys |
| Cli.KeysAscending | crates/rospeek-cli/src/main.rs:80-90 | the map's keys are distinct and ascending |
| Cli.InsertByName | crates/rospeek-cli/src/main.rs:92 | inserting a topic adds exactly that topic |
| Cli.SortByName | crates/rospeek-cli/src/main.rs:92 | sorting is a permutation of the group |
| Cli.SortByNameSorted | crates/rospeek-cli/src/main.rs:92 | the sorted group is ordered by name |
| Cli.GroupMembers | crates/rospeek-cli/src/main.rs:88 | a group holds only topics with its key |
| Cli.GroupsMultiset | crates/rospeek-cli/src/main.rs:80-93 | the groups together hold exactly the topics whose key is among the keys |
| Cli.ListingPermutation | crates/rospeek-cli/src/main.rs:80-98 | `info` lists every topic exactly once |
| Cli.ListingOrdered | crates/rospeek-cli/src/main.rs:90-98 | topics are listed by ascending key, and by name within a key |
| Strings.StrLeTotal | crates/rospeek-cli/src/main.rs:92 | any two names are comparable |
| Strings.StrLeTransitive | crates/rospeek-cli/src/main.rs:92 | the name order is transitive |
| Strings.StrLeAntisymmetric | crates/rospeek-cli/src/main.rs:92 | names ordered both ways are equal |
| Cli.ShowLines | crates/rospeek-cli/src/main.rs:104-108 | `show` prints min(count, n) lines, or all n without a count; line i reports message i's index, timestamp and size |
| Cli.ShowAll | crates/rospeek-cli/src/main.rs:105 | a count of at least n prints everything, and a count of 0 prints nothing |
| Strings.TrimStartChar | crates/rospeek-cli/src/main.rs:118 | the result is a suffix that does not start with the character, and everything removed was that character |
| Strings.ReplaceChar | crates/rospeek-cli/src/main.rs:118 | same length, with every occurrence of the character replaced and every other character kept |
| Cli.OutputFileName | crates/rospeek-cli/src/main.rs:118 | the output file name holds no `/`, so it is written in the working directory |
| Cli.OutputFileNameOf | crates/rospeek-cli/src/main.rs:118 | the name is the topic without leading slashes, with `/` turned into `.`, followed by `.json` or `.csv` |
| Cli.TrimSlashes | crates/rospeek-cli/src/main.rs:126 | all the leading slashes are removed, and nothing else |

## Left out

- Cdr.DecodeField: `Vec::with_capacity(length)` (cdr.rs:77) allocates before any element is read, and this is not modelled.
  - An array length above about 2^58 elements panics with "capacity overflow".
  - A huge sequence count can abort the process when the allocation fails.
  - In both cases the model returns an end-of-file error once the buffer runs out.
- Cdr.DecodeString: `vec![0u8; len]` (cdr.rs:154) allocates the declared length, up to 4 GiB, before reading. An allocation failure is not modelled; the model returns an end-of-file error.
- Cdr.DecodeFixed: `float` and `double` values keep their raw IEEE-754 bytes.
  - `json!` turns NaN and the infinities into `null`, and this is not modelled.
  - Floating-point arithmetic and JSON number formatting are not modelled either.
- Schema.ParseUsizeOrZero: `usize` is taken to be 64 bits (`Schema.UsizeLimit`).
- Schema.ToFieldType: `\d` is Unicode `Nd` as listed by Unicode 15.0; digits added by later Unicode versions are not covered.
- Cdr.Decode: stated for ranked resolvers only.
  - Every type that contains itself is excluded.
  - When the first field is the type itself, the decoder as written descends without reading a byte (see Findings).
  - When bytes are read before the self-reference, the source stops with an end-of-file error once the buffer runs out.
  - Through a `sequence<…>` field, the source stops once it reads a count of 0.
- Cdr.Decode: uses the time table as written, where `builtin_interfaces/msg/Time` is a nested type (see Findings).
  - With the Time IDL installed the two tables decode alike (`CdrExamples.NestedTimeAgrees`). So the corrected `CdrExamples.ClassifyIntended` differs only on machines without that IDL file.
- `wchar` and `wstring` are unsupported in the source, and are treated like any other nested type name.
- Model.RawMessage: timestamps are unbounded integers, so timestamps before 1970 are included. The `i64` range of the source's timestamps is not modelled.
  - The filter bounds (`since`, `until`, `start_ns`) and the arguments of `DurationNs` and `NsSplit` are natural numbers. Their `u64` upper bound is not modelled.
  - The source compares an `i64` timestamp directly with a `u64` bound (crates/rospeek-core/src/reader.rs:57, 77 and 103; crates/rospeek-gui/src/backend.rs:52). The model reads that comparison as the mathematical `>=` or `<=` of the two integers.
- Reader.DurationNs: gives whole nanoseconds. The division by 10^9 in `f64` is not modelled.
- Reader.NsSplit: `DateTime::from_timestamp` and its `%Y-%m-%d %H:%M:%S` formatting are not modelled.
- `BagStats`, `size_gb` and the `Display` implementations print text only, and are not modelled.
- Backend.FileName: a simplified `Path::components` for `/`-separated, UTF-8 paths.
  - It drops empty and `.` components.
  - Windows prefixes are not modelled.
  - Neither is the non-UTF-8 case of `to_str`.
- Reading a bag, and opening the SQLite and MCAP readers, are parameters; the storage back-ends are not part of this model.
- The environment, the file system and `shellexpand::full` are parameters.
- The `Mutex` around the GUI reader is left out; the model has no concurrency.
- The egui application, apart from `dump_bytes`, is not part of this model.
- `info` also prints the bag statistics and a `Count` column.
  - The statistics are printed text only.
  - `Topic` in model.rs has no `count` field, so the listing models which topics are printed, and in which order, not the text.
- Cli.SortByName: `sort_by` is stable. The insertion sort here is stable too, but no lemma states it.
- Cli.ShowLines: each printed line is a record of index, timestamp and size; the text `[i] t = … ns, … bytes` is not modelled.
- `dump` calls `try_decode_json` and `flatten_json`, whose source is not part of this model. So it is modelled only for the output file name; writing JSON and CSV files is left out.

## Findings

| source | as written | input that shows it | evidently intended | confidence | as-written member | corrected member |
|---|---|---|---|---|---|---|
| crates/rospeek-core/tests/test_cdr.rs:28-33 | the test decodes with `CdrDecoder::new(&data)`, which starts at offset 0, although the buffer begins with the 4-byte encapsulation header | the tests' buffer with the hand-built `{sec: int32, nanosec: uint32}` schema: sec decodes to 256 (the header word) and nanosec to 722, so `result["sec"] == 722` fails | skip the 4-byte header before decoding; sec is then 722 and nanosec 5000 (`CdrExamples.TestDecodeAfterHeader`, `CdrExamples.HeaderRoundTrip`) | not executed; high | CdrExamples.TestFromStart | CdrExamples.DecodeAfterHeader |
| crates/rospeek-core/src/cdr.rs:54-57 | the time arm lists `builtin_interfaces/msg/Time/Time`, which the schema parser never produces, and omits `builtin_interfaces/msg/Time` | a field `builtin_interfaces::msg::Time stamp;` on a machine without the builtin_interfaces IDL fails with IdlNotFound instead of reading sec and nanosec | list `builtin_interfaces/msg/Time` beside `builtin_interfaces/msg/Duration`; it then takes the time arm (`CdrExamples.IntendedTime`), and every other name keeps its arm (`CdrExamples.IntendedAgrees`) | not executed; medium | CdrExamples.TimeFieldWithoutIdl | CdrExamples.ClassifyIntended |
| crates/rospeek-core/src/cdr.rs:63-65 | a nested type is resolved and decoded with no depth limit, before any byte is read | an IDL `pkg/msg/A.idl` whose first field is `pkg::msg::A a;` makes `decode` call itself until the stack overflows | a type that contains itself is rejected (ROS 2 interfaces may not contain themselves), so the chain of first-field nested types always ends within rank + 1 lookups | not executed; medium | CdrRecursion.SelfReferenceNeverSettles | CdrRecursion.RankedSettles |
