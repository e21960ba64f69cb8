# MST archives: the `fang` engine and the older parser, in Dafny

An MST archive is a game-data container. It has five parts, in order:

- a four-byte magic: `FANG` for little-endian, `GNAF` for big-endian, anything else read as little-endian;
- a 32-bit version word, a bitfield of patch, minor, major and platform bits;
- a 100-byte header of 25 `u32` words: the file size, four list counts, the data offset, ten compiler versions and nine reserved words;
- an entry table of four lists: live entries, free entries, support entries and free support entries;
- the entries' contents, each starting at a multiple of 2048 bytes.

The entry table's record layout depends on the revision. There are four:

| revision | name width | flags | crc |
|---|---|---|---|
| 1.8.0 PS2 | 20 bytes | yes | yes |
| 1.8.0 | 16 bytes | yes | yes |
| 1.7.0 | 16 bytes | no | yes |
| 1.6.0 | 16 bytes | no | no |

Tables convert between revisions through a canonical form, which is the 1.8.0 PS2 layout.

This project models two codecs:

- the `fang` engine (`fang/src/mst/` and `fang/src/util.rs`): identifiers, the version bitfield, the header, entries and filenames, the four entry tables and their conversions, the archive reader and writer, and `MstBuilder`;
- the older parser (`src/parsers/mst.rs`), which uses a single entry type whose optional fields follow the version.

Pure code is modelled as functions with lemmas about them. binrw's writers are modelled as methods over an output `Io.Stream`, a class with a byte sequence and a position. `MstBuilder` is a class whose methods update its fields.

The modules and the source they model:

| module | models |
|---|---|
| `Bytes` | numbers as bytes; writing into a stream's bytes |
| `Util` | `fang/src/util.rs` |
| `Identity` | magic, version word, known platforms and revisions |
| `Header` | `header.rs` |
| `Entry` | `entry.rs` |
| `EntryTable` | `entries.rs` |
| `Archive` | `mod.rs` |
| `Builder`, `BuilderLayout`, `BuilderImage` | `builder.rs` |
| `LegacyParser` | `src/parsers/mst.rs` |

Two behaviours worth stating on their own:

- `fang` reads and writes the version word as a `u32` in the archive's byte order (`fang/src/mst/mod.rs:104-105`). It is not always little-endian.
- `Entries::convert` to a table's own revision is an error (`fang/src/mst/entries.rs:172-183`). It is not the identity.

## Model

| member | source | states |
|---|---|---|
| Util.NulIndex | fang/src/util.rs:3-10 | The cut point ends a NUL-free prefix. It is the first zero byte, or the end of the buffer when there is none. |
| Util.NulIndexAt | fang/src/util.rs:3-10 | The cut point is the only position with that property. |
| Util.VecToNullTerminatedStr | fang/src/util.rs:3-10 | The text is the part of the buffer before its first zero byte, or the whole buffer when it has none. |
| Util.StringToVec | fang/src/util.rs:12-17 | The field is exactly `length` bytes long. Byte `i` is the text's byte `i`, or zero past the end of the text. |
| Util.StringRoundTrip | fang/src/util.rs:3-17 | A NUL-free text written into a field and read back is itself, cut to the field's width. |
| Util.FieldRewrite | fang/src/util.rs:3-17 | A field read and written back gives the same bytes exactly when only zeros follow its first zero byte. |
| Bytes.AsU32 | fang/src/mst/builder.rs:279 | `as u32` keeps a value below 2^32 as it is. Any other value changes by a multiple of 2^32. |
| Bytes.Zeros | fang/src/mst/builder.rs:247-248 | `vec![0u8; n]` is n zero bytes. |
| Bytes.U16RoundTrip | fang/src/mst/entry.rs:86-87 | A `u16` written in either byte order reads back as itself. |
| Bytes.U16BytesOfRead | fang/src/mst/entry.rs:86-87 | Any two bytes are the encoding of the value they read as. |
| Bytes.U32RoundTrip | fang/src/mst/builder.rs:280-284 | A `u32` written with `to_le_bytes` or `to_be_bytes` reads back as itself in the same byte order. |
| Bytes.U32BytesOfRead | fang/src/mst/builder.rs:280-284 | Any four bytes are the encoding of the value they read as. |
| Bytes.Overwrite | fang/src/mst/builder.rs:278-281 | After a seek and `write_all`, the written bytes sit at the seek position. The output grows only when the write runs past its end. |
| Bytes.OverwriteElsewhere | fang/src/mst/builder.rs:278-307 | Every byte outside the written range keeps its old value. A gap left by a seek past the end reads as zero. |
| Bytes.OverwriteBefore | fang/src/mst/builder.rs:278-307 | A slice that ends before the written range is unchanged. |
| Bytes.OverwriteAtEnd | fang/src/mst/builder.rs:249 | Writing at the end of the output appends. |
| Bytes.OverwriteU32Inside | fang/src/mst/builder.rs:299-306 | A `u32` written inside the output keeps its length and reads back at that position. |
| Io.Stream.StreamPosition | fang/src/mst/builder.rs:243 | `stream_position` returns the current position and changes nothing. |
| Io.Stream.Seek | fang/src/mst/builder.rs:278 | `seek(SeekFrom::Start(p))` moves the position to `p` and leaves the bytes alone. |
| Io.Stream.WriteAll | fang/src/mst/builder.rs:249 | `write_all` overwrites from the position, extends the output as needed, and advances the position by the number of bytes written. |
| Identity.ReadIdentifierFacts | fang/src/mst/mod.rs:83-99 | A magic reads as big-endian exactly when it is `GNAF`. Writing the identifier back gives the same four bytes. |
| Identity.IdentifierRoundTrip | fang/src/mst/mod.rs:83-90 | An identifier written and read back is itself. An `Unknown` magic must not be one of the two known ones. |
| Identity.PackUnpack | fang/src/mst/mod.rs:102-119 | Every 32-bit word splits into the bitfield's fields and packs back to itself, skipped bits included. |
| Identity.UnpackPack | fang/src/mst/mod.rs:102-119 | Every tuple of in-range fields packs into a word and unpacks back to itself. |
| Identity.BitLayout | fang/src/mst/mod.rs:106-119 | Bit positions: patch 0-7, minor 8-15, major 16-23, xbox 24, pc 26, tools 27, gc 28, ps2 29. |
| Identity.MstVersion.SetMinor | fang/src/mst/mod.rs:71 | `set_minor` replaces the minor field and no other field. |
| Identity.VersionRewrite | fang/src/mst/mod.rs:104-105 | Four version bytes read and written back in the same byte order are the same bytes. |
| Identity.VersionFromKnown | fang/src/mst/builder.rs:211 | The version `create_mst` writes, as this model assumes `from_known` builds it: major 1, the revision's minor, and the ps2 bit set exactly for 1.8.0 PS2. Its other fields come from the platform. |
| Header.WordsRoundTrip | fang/src/mst/header.rs:4-25 | The header and its 25 words in storage order determine each other. |
| Header.WordAt | fang/src/mst/header.rs:4-25 | Word `i` is stored at bytes `4i` to `4i+4`. |
| Header.ReadWordsRoundTrip | fang/src/mst/header.rs:4-25 | A run of words written and read back is itself. |
| Header.WordsRewrite | fang/src/mst/header.rs:4-25 | Any whole number of words read and written back gives the same bytes. |
| Header.HeaderBytes | fang/src/mst/header.rs:4-25 | The stored header is 100 bytes. |
| Header.HeaderRoundTrip | fang/src/mst/header.rs:4-25 | Every field reads back as written, the reserved words included. |
| Header.HeaderRewrite | fang/src/mst/header.rs:4-25 | Any 100 bytes read as a header and written back are the same bytes. |
| Header.HeaderFieldPositions | fang/src/mst/header.rs:5-11 | Byte positions in the header: size at 0, the four counts at 4 to 20, the data offset at 20. |
| Entry.FilenameToString | fang/src/mst/entry.rs:17-24 | A name's text is the prefix before its first zero byte. |
| Entry.IsEmptyIff | fang/src/mst/entry.rs:12-24 | `is_empty` holds exactly when the name's text is empty. |
| Entry.FilenameFromString | fang/src/mst/entry.rs:33-47 | The field is T bytes: the text's first `min(T-1, len)` bytes, then zeros. The last byte is always zero. |
| Entry.FilenameTextRoundTrip | fang/src/mst/entry.rs:17-47 | A NUL-free text stored in a T-byte name comes back cut to T-1 bytes. |
| Entry.Widen | fang/src/mst/entry.rs:49-55 | A 16-byte name widens to 20 bytes: its 16 bytes, then four zeros. |
| Entry.Narrow | fang/src/mst/entry.rs:57-63 | A 20-byte name narrows to 16 bytes: its first 15 bytes, then a zero. |
| Entry.NarrowWiden | fang/src/mst/entry.rs:49-63 | Widening then narrowing keeps 15 bytes and zeroes the last. It is the identity exactly when byte 15 is already zero. |
| Entry.WidenKeepsText | fang/src/mst/entry.rs:49-55 | Widening keeps a name's text. |
| Entry.NarrowText | fang/src/mst/entry.rs:57-63 | Narrowing keeps at most the first 15 bytes of a name's text. |
| Entry.V180Conversions | fang/src/mst/entry.rs:113-137 | A 1.8.0 entry taken to canonical form and back differs only in its name, which is widened then narrowed. Canonical to 1.8.0 and back is the projection onto 16-byte names. |
| Entry.V170Conversions | fang/src/mst/entry.rs:168-191 | Same as the 1.8.0 case, for 1.7.0. Flags read as zero in canonical form; going back projects out the flags. |
| Entry.V160Conversions | fang/src/mst/entry.rs:221-243 | Same as the 1.8.0 case, for 1.6.0. Flags and crc read as zero in canonical form; going back projects out both. |
| Entry.SupportConversions | fang/src/mst/entry.rs:274-290 | Support entries keep their timestamp in both directions. Their name is widened then narrowed. |
| Entry.V180RoundTrip | fang/src/mst/entry.rs:82-93 | A 1.8.0 record written and read back is the entry, for either name width. |
| Entry.V180Rewrite | fang/src/mst/entry.rs:84-87 | A 1.8.0 record read and written back gives the same bytes exactly when its two padding bytes are zero. |
| Entry.V180Layout | fang/src/mst/entry.rs:84-93 | A 1.8.0 record is laid out as name, flags, two zero bytes, offset, size, timestamp, crc. |
| Entry.V170RoundTrip | fang/src/mst/entry.rs:141-148 | A 1.7.0 record written and read back is the entry. |
| Entry.V170Rewrite | fang/src/mst/entry.rs:141-148 | Any 32 bytes read as a 1.7.0 record and written back are the same bytes. |
| Entry.V160RoundTrip | fang/src/mst/entry.rs:195-201 | A 1.6.0 record written and read back is the entry. |
| Entry.V160Rewrite | fang/src/mst/entry.rs:195-201 | Any 28 bytes read as a 1.6.0 record and written back are the same bytes. |
| Entry.SupportRoundTrip | fang/src/mst/entry.rs:259-262 | A support record written and read back is the entry. |
| Entry.SupportRewrite | fang/src/mst/entry.rs:259-262 | A support record read and written back gives the same bytes. |
| Entry.RecordEntryOffset | fang/src/mst/entry.rs:245-256 | When a list is given, the current position is appended to it. Without a list, nothing is recorded. Either way the value is written there and the position advances by 4. |
| Entry.WriteRow | fang/src/mst/entry.rs:82-93 | The record's bytes are appended. The position of its offset field is recorded when a list is given. |
| EntryTable.PivotShape | fang/src/mst/entries.rs:42-108 | `into_canonical` and `from_canonical` keep all four list lengths and orders, mapping element by element. |
| EntryTable.CanonicalOfFromCanonical | fang/src/mst/entries.rs:85-108 | A table built from canonical form in revision t has revision t. Its canonical form is what t can hold of the original. |
| EntryTable.ProjectTwice | fang/src/mst/entry.rs:49-63 | Passing through two revisions keeps what both can hold, and nothing more. |
| EntryTable.ConvertByRevision | fang/src/mst/entries.rs:170-228 | The 16 arms of `convert` come down to three cases: a target that names no revision fails "unknown"; the table's own revision fails "self"; any other target pivots through canonical form. |
| EntryTable.ConvertResult | fang/src/mst/entries.rs:170-228 | A successful conversion names a revision other than the table's own, produces that revision, keeps the counts, and keeps what the target can hold. |
| EntryTable.ConvertedMatches | fang/src/mst/entries.rs:114-228 | A converted table passes the writer's version assert for any version with the target's major, minor and ps2 bit. |
| EntryTable.ConvertAndBack | fang/src/mst/entries.rs:170-228 | Converting twice keeps the counts, and every entry's offset, size and timestamp. The names and optional fields are what both revisions keep. |
| EntryTable.ConvertUnknownTargets | fang/src/mst/entries.rs:224-226 | Any target not listed in `convert` fails "unknown", whatever the table. |
| EntryTable.ReadChunks | fang/src/mst/entries.rs:17-26 | `count` records of equal size are cut from the front of the input. Together with the remainder they are the input. |
| EntryTable.ReadChunksFits | fang/src/mst/entries.rs:17-26 | Reading the records fails exactly when the input is shorter than they are. |
| EntryTable.ReadChunksRoundTrip | fang/src/mst/entries.rs:17-26 | Records written back to back and read again are the same records, with the rest left over. |
| EntryTable.ReadRaw | fang/src/mst/entries.rs:17-26 | The four lists read in stored order have the header's counts and the record sizes. |
| EntryTable.ReadRawRoundTrip | fang/src/mst/entries.rs:17-26 | Four lists with the header's counts, written and read again, are the same lists. |
| EntryTable.DecodeAt | fang/src/mst/entries.rs:114-167 | Records decoded in revision t form a table of revision t with the same four counts. |
| EntryTable.EncodeSized | fang/src/mst/entries.rs:12-27 | A table's stored records have its revision's sizes and its four counts. |
| EntryTable.V180ListRoundTrip | fang/src/mst/entry.rs:82-93 | A list of 1.8.0 entries with one name width reads back from its records. |
| EntryTable.V170ListRoundTrip | fang/src/mst/entry.rs:141-148 | A list of 1.7.0 entries reads back from its records. |
| EntryTable.V160ListRoundTrip | fang/src/mst/entry.rs:195-201 | A list of 1.6.0 entries reads back from its records. |
| EntryTable.SupportListRoundTrip | fang/src/mst/entry.rs:259-262 | A list of support entries with one name width reads back from its records. |
| EntryTable.DecodeEncode | fang/src/mst/entries.rs:12-27 | Decoding a table's records in its own revision gives the table back. |
| EntryTable.ReadEntries | fang/src/mst/entries.rs:111-167 | A table that is read has the header's counts and a revision whose pre-assert admits the version. The unread input is a suffix. |
| EntryTable.TryRevisionsFacts | fang/src/mst/entries.rs:114-167 | binrw's trial of the variants in declaration order yields one of the variants tried, with the header's counts. |
| EntryTable.CandidatesFacts | fang/src/mst/entries.rs:115-154 | A revision is tried exactly when its pre-assert holds. A PS2 1.8 version tries 1.8.0 PS2, then 1.8.0. No revision is tried when major is not 1 or minor is outside 6 to 8. |
| EntryTable.MatchesVersionFacts | fang/src/mst/entries.rs:118-165 | A table that passes the writer's assert is the first revision the reader tries. Its name width is the version's `entry_name_length`. |
| EntryTable.ReadEntriesRoundTrip | fang/src/mst/entries.rs:9-167 | A table written under a version that passes the assert reads back as itself, with the rest left over. |
| EntryTable.ReadIgnoresPatch | fang/src/mst/entries.rs:115-154 | The patch number never changes what is read. |
| EntryTable.Ps2FallsBack | fang/src/mst/entries.rs:115-139 | A PS2 1.8 table that is too short for 20-byte names but long enough for 16-byte names is read as 1.8.0. |
| EntryTable.RowSiteHolds | fang/src/mst/entry.rs:245-256 | The position recorded for row i lies inside the written rows and holds that row's offset field. |
| EntryTable.RowSitesIncrease | fang/src/mst/entry.rs:245-256 | Recorded positions increase, at least four bytes apart. |
| EntryTable.RowSitesFacts | fang/src/mst/entries.rs:17-22 | For the written live list, every recorded position is in range, the positions are spaced, and each holds its row's offset. |
| EntryTable.WriteRows | fang/src/mst/entries.rs:17-22 | A list's records are appended. Live rows have their offset positions recorded; free rows (`None`) record nothing. |
| EntryTable.WriteEntries | fang/src/mst/entries.rs:111-167 | A table that fails the version assert writes nothing and errs. Otherwise its four lists are appended and only the live rows' offset positions are recorded. |
| Archive.PrefixParts | fang/src/mst/mod.rs:12-61 | The magic, the version word in the archive's byte order, and the header occupy bytes 0-4, 4-8 and 8-108. |
| Archive.ArchiveLayout | fang/src/mst/mod.rs:12-61 | A written archive reads its magic at 0, its version word at 4, its header at 8 and its table from 108. |
| Archive.HeaderWordAt | fang/src/mst/mod.rs:55-57 | Header word i sits at file offset 8+4i. |
| Archive.HeaderFieldOffsets | fang/src/mst/header.rs:5-11 | Byte positions in the file: size at 8, the counts at 12 to 24, the data offset at 28. |
| Archive.ParseArchiveRoundTrip | fang/src/mst/mod.rs:12-61 | An archive written with a matching version and the header's counts parses back to the same parts. |
| Archive.ParseShortInput | fang/src/mst/mod.rs:12-61 | Input shorter than the 108-byte prefix is refused with an end-of-file error. |
| Archive.ConvertFacts | fang/src/mst/mod.rs:68-80 | Success needs a target of 1.6.0, 1.7.0 or 1.8.0. On success the minor field is set and the table is converted with the body's ps2 bit. Any other target errs and changes nothing. On success the corrected conversion agrees. |
| Archive.ConvertKeepsWritable | fang/src/mst/mod.rs:68-80 | The corrected conversion keeps a body's table writable under its version. |
| Archive.ConvertAtomicOnFailure | fang/src/mst/mod.rs:68-80 | The corrected conversion leaves the body unchanged whenever it fails. |
| Archive.ConvertAsWrittenNotAtomic | fang/src/mst/mod.rs:71-74 | Counterexample: converting a PS2 1.8.0 body to 1.7.0 fails but leaves minor 7 over the PS2 table, which can no longer be written. |
| Archive.MstBody.constructor | fang/src/mst/mod.rs:55-61 | Sets the three fields. |
| Archive.MstBody.Convert | fang/src/mst/mod.rs:68-80 | `convert` as written: the new version, table and result are those of `ConvertAsWritten`. The header is unchanged. |
| Archive.MstBody.ConvertAtomically | fang/src/mst/mod.rs:68-80 | The corrected `convert`: the new state is `ConvertAtomic`'s. The header is unchanged. |
| Archive.Mst.constructor | fang/src/mst/mod.rs:14-19 | Sets the identifier and the body. |
| Archive.Mst.CollectEntries | fang/src/mst/mod.rs:22-29 | The live entries in table order, in canonical form. There are as many as the table has. |
| Archive.Mst.CollectSupportEntries | fang/src/mst/mod.rs:31-50 | The live support entries in table order, in canonical form. There are as many as the table has. |
| Archive.Mst.Write | fang/src/mst/mod.rs:12-61 | When the table matches the version, the whole archive is appended and each live entry's offset position is recorded. Otherwise the prefix is written and the assert fails. |
| Archive.WriteArchive | fang/src/mst/mod.rs:12-61 | The same as `Mst.Write`, over the archive's parts. |
| Archive.WritePrefix | fang/src/mst/mod.rs:12-19 | Appends the magic, the version word and the header. |
| Archive.CollectAfterConvert | fang/src/mst/mod.rs:22-50 | After a conversion, each collected entry is the old one reduced to what the new revision holds. |
| Builder.NowAsU32 | fang/src/mst/builder.rs:89 | `timestamp() as u32` is the clock modulo 2^32. |
| Builder.ReadSource | fang/src/mst/builder.rs:254-268 | A source that is read yields exactly the requested size: the data held in memory, or the file range. A missing file is an I/O error. An open file fails, with an unexpected end of file, exactly when the range is non-empty and runs past the end. An empty range succeeds wherever it starts. |
| Builder.ReadAllFacts | fang/src/mst/builder.rs:242-273 | Sources are read in order until the first failure. The contents are the successful reads. The failure, if any, is the next source's error. |
| Builder.ReadAllStops | fang/src/mst/builder.rs:242-273 | Once a prefix of the sources fails, later sources change nothing. |
| Builder.ReadAllNext | fang/src/mst/builder.rs:242-273 | After a clean prefix, one more source either adds its content or records its error. |
| Builder.DistinctCard | fang/src/mst/builder.rs:24 | A duplicate-free enumeration lists as many paths as it has elements. |
| Builder.OrderLength | fang/src/mst/builder.rs:220 | The iteration order is as long as `entry_sources.len()`. |
| Builder.AddedKeys | fang/src/mst/builder.rs:62-85 | After a run of adds, a path is present exactly when it was present before or was added. |
| Builder.AddedLast | fang/src/mst/builder.rs:62-85 | The last add of a path decides its source. |
| Builder.AddedUntouched | fang/src/mst/builder.rs:62-85 | A path never added keeps its source. |
| Builder.CreateEntries | fang/src/mst/builder.rs:88-206 | The created table has the target revision, one live entry per source, and no free or support entries. |
| Builder.CreatedCanonical | fang/src/mst/builder.rs:88-206 | Each live entry has the path as its name, zero flags, offset and crc, the source's size, and its timestamp or the clock's. |
| Builder.NarrowFilename | fang/src/mst/entry.rs:33-63 | Cutting a path to a 20-byte name and narrowing it gives the same name as cutting it to 16 bytes. |
| Builder.CreatedAsConverted | fang/src/mst/builder.rs:88-206 | Creating a table in a non-PS2 revision gives what creating it for 1.8.0 PS2 and converting would give. |
| Builder.CreatedMatches | fang/src/mst/builder.rs:209-231 | The created table passes the writer's assert for the version `Identity.VersionFromKnown` makes (this rests on its assumed ps2 rule). When the count fits a `u32`, its counts equal the header's. |
| Builder.WriteIntoEmpty | fang/src/mst/builder.rs:234-238 | `write_le_args` on an empty output writes the archive and returns the positions of the live entries' offset fields. |
| Builder.WriteBlock | fang/src/mst/builder.rs:243-272 | Pads to a multiple of 2048, then writes the source's content. On a read error the padding stays and the error is returned. |
| Builder.WriteContents | fang/src/mst/builder.rs:242-273 | The loop writes every block, aligned, and returns their offsets. It stops at the first read error, after that block's padding. |
| Builder.MstBuilder.constructor | fang/src/mst/builder.rs:28-39 | `new`: the given platform, revision and compilers, and no sources. |
| Builder.MstBuilder.FromMstEmpty | fang/src/mst/builder.rs:42-49 | The platform conversion's error comes first, then the revision's. On success: those values, the archive's compilers, and no sources. |
| Builder.MstBuilder.SetVersion | fang/src/mst/builder.rs:52-54 | Only the target revision changes. |
| Builder.MstBuilder.AddEntryMemory | fang/src/mst/builder.rs:62-65 | The path maps to the data. Every other path's presence is kept, as are the other fields. |
| Builder.MstBuilder.AddEntryFile | fang/src/mst/builder.rs:68-85 | The path maps to the file range. Every other path's presence is kept, as are the other fields. |
| Builder.MstBuilder.Created | fang/src/mst/builder.rs:88-206 | The builder's table has its target revision and one live entry per source. |
| Builder.MstBuilder.CreatedBytes | fang/src/mst/builder.rs:209-238 | The created archive holds at least the 108-byte prefix. |
| Builder.MstBuilder.CreatedSites | fang/src/mst/builder.rs:237-238 | One offset position per source, each a four-byte field inside the table. |
| Builder.MstBuilder.CreatedSitesSpaced | fang/src/mst/builder.rs:237-238 | Those positions increase, at least four bytes apart. |
| Builder.MstBuilder.CreateMst | fang/src/mst/builder.rs:209-231 | The identifier and version come from the known platform and revision. The header counts every source. The table is the created one. |
| Builder.MstBuilder.Write | fang/src/mst/builder.rs:233-310 | When every source is read, the output is the built image. Otherwise the error is returned and the output ends after the failed block's padding. |
| Builder.MstBuilder.WriteCreated | fang/src/mst/builder.rs:234-238 | Writes the created archive and returns its offset positions. |
| BuilderLayout.PaddingAligns | fang/src/mst/builder.rs:246-251 | The padding is under 2048 and aligns the position. It is zero exactly when the position is already aligned. |
| BuilderLayout.PlacedPrefix | fang/src/mst/builder.rs:242-273 | Laying out more blocks keeps the layout of the first k. |
| BuilderLayout.OffsetsPrefix | fang/src/mst/builder.rs:242-273 | The first k offsets are kept too. |
| BuilderLayout.PlacedNext | fang/src/mst/builder.rs:246-272 | One more block is its padding followed by the block. |
| BuilderLayout.OffsetsNext | fang/src/mst/builder.rs:250-271 | The next block's offset is the next multiple of 2048. |
| BuilderLayout.AppendBlock | fang/src/mst/builder.rs:242-273 | One loop iteration, after the table: the bytes and the offsets it adds. |
| BuilderLayout.BlockAt | fang/src/mst/builder.rs:242-273 | Block i sits at its offset, right after the padding that follows the blocks before it. |
| BuilderLayout.OffsetAt | fang/src/mst/builder.rs:242-273 | Block i starts at the first multiple of 2048 after the blocks before it. |
| BuilderLayout.OffsetAligned | fang/src/mst/builder.rs:246-251 | Every block starts at a multiple of 2048, no earlier than the start. |
| BuilderLayout.BlockInPlace | fang/src/mst/builder.rs:242-273 | Every block lies unchanged at its aligned offset. |
| BuilderLayout.PaddingIsZero | fang/src/mst/builder.rs:246-251 | The padding before each block is zeros and shorter than 2048 bytes. |
| BuilderLayout.BlockEnd | fang/src/mst/builder.rs:271-272 | Block i ends where the first i+1 blocks end. |
| BuilderLayout.OffsetsInOrder | fang/src/mst/builder.rs:242-273 | Blocks follow one another without overlapping. |
| BuilderLayout.MinOffset | fang/src/mst/builder.rs:290 | `iter().min()` of a non-empty list is one of its elements and no greater than any other. |
| BuilderLayout.MinOffsetIsFirst | fang/src/mst/builder.rs:290 | The smallest content offset is the first block's. |
| BuilderLayout.PatchSitesNext | fang/src/mst/builder.rs:298-307 | One more patch is a seek and a write of the next value. |
| BuilderLayout.PatchSitesFacts | fang/src/mst/builder.rs:298-307 | When positions are spaced, patching keeps the length and every other byte, and each position holds its value as a `u32`. |
| BuilderLayout.PatchSitesKeep | fang/src/mst/builder.rs:298-307 | Patching keeps the length and every byte outside the patched fields. |
| BuilderLayout.PatchSitesHold | fang/src/mst/builder.rs:298-307 | When positions are spaced, each holds its own value after patching. |
| BuilderImage.BuiltImage | fang/src/mst/builder.rs:233-310 | The finished output is as long as the file size and no shorter than the table. |
| BuilderImage.WrittenIsBuilt | fang/src/mst/builder.rs:275-307 | The three patching steps, run over the laid-out output, give the built image. |
| BuilderImage.FinishedTableFacts | fang/src/mst/builder.rs:275-307 | The patched table holds the file size, the data offset and each entry's offset, all as `u32`. Every other byte is kept. |
| BuilderImage.DataOffsetIsFirst | fang/src/mst/builder.rs:287-290 | The data offset is the first block's offset, or the file size when there are no blocks. |
| BuilderImage.BuiltHeaderWords | fang/src/mst/builder.rs:275-295 | Offset 8 holds the output's length as `u32`. Offset 28 holds the first block's offset, or the length when there are none. |
| BuilderImage.BuiltSiteAt | fang/src/mst/builder.rs:297-307 | Each entry's offset field holds its block's offset as `u32`. |
| BuilderImage.BuiltKeeps | fang/src/mst/builder.rs:275-307 | Every other byte of the created archive is kept. |
| BuilderImage.BuiltBlockAt | fang/src/mst/builder.rs:242-273 | Each block lies unchanged past the table, at a multiple of 2048. |
| BuilderImage.PatchOffsets | fang/src/mst/builder.rs:297-307 | The `zip` loop patches as many positions as both lists have. |
| BuilderImage.PatchHeader | fang/src/mst/builder.rs:275-295 | Writes the file size at 8 and the data offset at 28. |
| BuilderImage.FinishImage | fang/src/mst/builder.rs:275-307 | The two header words and the offset fields patched in give the written image. |
| LegacyParser.Platform | src/parsers/mst.rs:142-153 | The pc bit wins, then gc, then ps2. Otherwise the platform is unknown. Each case is an if-and-only-if. |
| LegacyParser.NameLengthAgainstFang | src/parsers/mst.rs:155-160 | Names are 20 bytes exactly for the PS2 platform at 1.8. This differs from `fang`'s width exactly when ps2 is set together with pc or gc. |
| LegacyParser.ReadEntryFits | src/parsers/mst.rs:163-194 | Every entry read fits its width and version: the name has no zero byte and fits its field, and the optional fields are present exactly as the version says. |
| LegacyParser.HeadRoundTrip | src/parsers/mst.rs:176-183 | The name, flags and reserved word of an entry that fits read back from its bytes. |
| LegacyParser.TailRoundTrip | src/parsers/mst.rs:186-193 | Size, timestamp and crc read back from their bytes. |
| LegacyParser.EntryRoundTrip | src/parsers/mst.rs:163-194 | An entry that fits is written at its version's size and reads back as itself. |
| LegacyParser.FlagsRewrite | src/parsers/mst.rs:180-183 | The optional half-words, read and written back, are the same bytes. |
| LegacyParser.HeadRewrite | src/parsers/mst.rs:176-183 | A head read and written back gives the same bytes exactly when its name field is zero-padded. |
| LegacyParser.TailRewrite | src/parsers/mst.rs:186-193 | A tail read and written back gives the same bytes. |
| LegacyParser.EntryRewrite | src/parsers/mst.rs:163-194 | A record read and written back gives the same bytes exactly when its name field is zero-padded. |
| LegacyParser.RowOfRead | src/parsers/mst.rs:163-194 | The row of a read record keeps its offset and tail bytes. Its head is the same exactly when the name field is zero-padded. |
| LegacyParser.SupportRoundTrip | src/parsers/mst.rs:207-216 | A support entry that fits its width reads back as itself. |
| LegacyParser.ReadEntries | src/parsers/mst.rs:40-49 | One entry is decoded per record, in order. |
| LegacyParser.ReadSupports | src/parsers/mst.rs:59-64 | One support entry is decoded per record, in order. |
| LegacyParser.ReadListsFails | src/parsers/mst.rs:40-64 | Reading the two lists fails exactly when the table is shorter than they are. |
| LegacyParser.ReadMstFails | src/parsers/mst.rs:9-70 | Reading fails exactly when the input cannot hold the prefix, or the lists its header announces. |
| LegacyParser.ReadListsFacts | src/parsers/mst.rs:40-64 | The lists have the wrapped sums of the header's counts. Every element fits. |
| LegacyParser.ReadMstLists | src/parsers/mst.rs:9-70 | A read archive's lists are the lists read after its header. |
| LegacyParser.EntriesCount | src/parsers/mst.rs:18-32 | `take(num_entries)` yields num_entries entries when the count sum does not wrap, and fewer when it does. |
| LegacyParser.ReadMstFacts | src/parsers/mst.rs:9-70 | A read archive's lists have the header's counts, and every element fits. |
| LegacyParser.AlignPadding | src/parsers/mst.rs:65-68 | `align_after = 4096` pads by less than 4096 bytes, up to the next multiple of 4096. |
| LegacyParser.Write | src/parsers/mst.rs:9-70 | The archive is appended and the output ends at a multiple of 4096. The position of every entry's offset field is recorded, free entries included. |
| LegacyParser.MstBytesParts | src/parsers/mst.rs:9-70 | A written archive is prefix, entry records, support records, then padding. |
| LegacyParser.ReadListsRoundTrip | src/parsers/mst.rs:40-69 | Lists that fit, written and read back, are themselves. |
| LegacyParser.ReadWritten | src/parsers/mst.rs:9-70 | A well-formed archive, written with the version word in the archive's byte order (the corrected writer) and read back, is itself. |
| LegacyParser.ReadWrittenAsWritten | src/parsers/mst.rs:9-118 | With the version word as the source writes it, the round trip holds for little-endian identifiers: the bytes are those of the corrected writer, and they read back as the archive. |
| LegacyParser.RowsInImage | src/parsers/mst.rs:50-58 | The entry records sit right after the 108-byte prefix. |
| LegacyParser.VersionBytesAsWritten | src/parsers/mst.rs:118 | The version bytes as written are four bytes, least significant first. |
| LegacyParser.VersionAsWrittenLittle | src/parsers/mst.rs:117-118 | In a little-endian archive, the written version bytes are the bytes that were read. |
| LegacyParser.VersionAsWrittenBigEndian | src/parsers/mst.rs:117-118 | Counterexample: the big-endian PS2 1.8 word is written reversed. It reads back as version 8.1 with 16-byte names. |

## Left out

- Output I/O errors are not modelled. The output stream always accepts seeks and writes. Only the reading of a builder source can fail: a missing file, or a file too short for the requested range.
- Builder.MstBuilder.Write: requires an empty output stream. The source seeks to absolute positions 8 and 28, so writing after existing data is not modelled.
- Stream positions are unbounded; `u64` positions are not modelled. Truncations to `u32` (`as u32`) are written out with `Bytes.AsU32`.
- Builder.MstBuilder.FromMstEmpty: the `try_from` conversions are parameters. `MstPlatformKnown` and `MstVersionKnown`'s conversions and `from_known` are not part of this model. A known platform is given by its identifier and base version word.
- Builder.MstBuilder.Write: `HashMap` iteration order is a parameter, any duplicate-free enumeration of the keys. Both of the source's passes use the same order, so every property holds for every order.
- Identity.VersionFromKnown: `MstVersion::from_known` is not part of this model, so its rule is an assumption: the ps2 bit is set exactly for 1.8.0 PS2, and every other bit comes from the platform's base word. Builder.CreatedMatches, and so the success of Builder.MstBuilder.Write, depend on it. If `from_known` took the ps2 bit from the platform instead, a 1.8.0 table built for a PS2 platform would fail the version assert at `fang/src/mst/entries.rs:131-138`.
- Entry.FilenameFromString: paths are taken as ASCII. `split_at` panics when the cut at `T - 1` bytes falls inside a multi-byte UTF-8 character; that panic is not modelled, and the model cuts the bytes anyway.
- Builder.NowAsU32: the clock (`Utc::now()`) is a parameter.
- Builder.ReadSource: the file system is a map from paths to contents. `BufReader`, `File::open` and `read_exact` are modelled by their results.
- Util.VecToNullTerminatedStr: `String::from_utf8_lossy` is not modelled. Text is its bytes, so non-UTF-8 bytes are not replaced and `char::from_u32` is the identity.
- The `chrono` conversions (`fang/src/util.rs:19-25`) are not modelled. Timestamps stay as `u32`.
- src/parsers/util.rs is not part of this model. The older parser's entries use `fang/src/util.rs`'s `vec_to_null_terminated_str` and `string_to_vec`.
- LegacyParser.ReadListsFacts: the count sums `num_entries + num_free_entries` wrap modulo 2^32, as in a release build. A debug build's overflow panic is not modelled.
- LegacyParser.Write: writes the version word in the archive's byte order, the corrected form from "## Findings". The bytes the source writes are `LegacyParser.VersionBytesAsWritten`, and the whole archive as it writes it is `LegacyParser.MstBytesAsWritten`.
- LegacyParser.ReadWritten: the round trip is proved for the corrected writer. For the source's writer it holds only for little-endian identifiers (`LegacyParser.ReadWrittenAsWritten`); for `GNAF` archives it fails (`LegacyParser.VersionAsWrittenBigEndian`).
- LegacyParser.RowsInImage: states where the records sit. That each recorded position holds its entry's offset field follows from `EntryTable.RowSitesFacts`; it is not restated for the older parser.
- LegacyParser.Write: the support records are written in a single write, not one at a time. The resulting bytes are the same.
- Debug formatting, `Filename::fmt`, and the `Entry`/`SupportEntry` trait accessors (`fang/src/mst/entry.rs:27-31`, `65-75`, `95-111`) are not modelled. They only read fields.

## Findings

| source | as written | input that shows it | evidently intended | confidence | as-written member | corrected member |
|---|---|---|---|---|---|---|
| src/parsers/mst.rs:117-118 | The version word is read as a `u32` in the archive's byte order but written as the bitfield's raw little-endian bytes. | A big-endian (`GNAF`) archive with version bytes `20 01 08 00` (PS2 1.8.0) is written back as `00 08 01 20`, which reads as version 8.1 with 16-byte names. | Write the word in the archive's byte order, as it is read, so that a read archive is written back unchanged. | not executed | LegacyParser.VersionAsWrittenBigEndian | Identity.VersionRewrite |
| fang/src/mst/mod.rs:71-74 | `MstBody::convert` sets the new minor before converting the table, and `?` returns without undoing it. | A PS2 1.8.0 body converted to 1.7.0: the table conversion fails, but the version now says 1.7 over a PS2 table, and writing it fails the version assert. | Change the version only once the table converts, so that a failed conversion leaves the body unchanged. | not executed | Archive.ConvertAsWrittenNotAtomic | Archive.ConvertAtomicOnFailure |
