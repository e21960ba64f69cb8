/** The archive as a whole (fang/src/mst/mod.rs): the magic, then the body
    (version word, header, entry table) in the byte order the magic selects. */
module Archive {
  import opened Bytes
  import opened Wrappers
  import opened Errors
  import opened Io
  import opened Entry
  import opened Header
  import opened EntryTable
  import Identity

  /** Where the parts of an archive start: magic at 0, version word at 4,
      header at 8, entry table at 108. */
  const VERSION_AT: nat := 4
  const HEADER_AT: nat := 8
  const TABLE_AT: nat := 108

  /** The header fields the builder patches: `bytes_in_file` and `data_offset`. */
  const FILE_SIZE_AT: nat := 8
  const DATA_OFFSET_AT: nat := 28

  // ---------------------------------------------------------------------------
  // Serialised form

  /** The magic, the version word and the header, in the magic's byte order. */
  function PrefixBytes(id: Identity.MstIdentifier, v: Identity.MstVersion, h: MstHeader): (r: seq<u8>)
    ensures |r| == TABLE_AT
  {
    var little := Identity.IsLittle(id);
    Identity.IdentifierBytes(id) + Identity.VersionBytes(v, little) + HeaderBytes(h, little)
  }

  /** `Mst` as binrw writes it, given the bytes of its table. */
  function ArchiveBytes(id: Identity.MstIdentifier, v: Identity.MstVersion, h: MstHeader, table: seq<u8>): (r: seq<u8>)
    ensures |r| == TABLE_AT + |table|
  {
    PrefixBytes(id, v, h) + table
  }

  /** The three parts of the prefix, where they sit. */
  lemma PrefixParts(id: Identity.MstIdentifier, v: Identity.MstVersion, h: MstHeader)
    ensures var p, little := PrefixBytes(id, v, h), Identity.IsLittle(id);
            p[..VERSION_AT] == Identity.IdentifierBytes(id)
            && p[VERSION_AT..HEADER_AT] == Identity.VersionBytes(v, little)
            && p[HEADER_AT..TABLE_AT] == HeaderBytes(h, little)
  {
    var little := Identity.IsLittle(id);
    var m, vb, hb := Identity.IdentifierBytes(id), Identity.VersionBytes(v, little), HeaderBytes(h, little);
    SliceLeft(m + vb, hb, 0, 4);
    SliceLeft(m + vb, hb, 4, 8);
  }

  /** Where the parts of a written archive sit: the magic, the version word in
      the magic's byte order, the header, then the table. */
  lemma ArchiveLayout(id: Identity.MstIdentifier, v: Identity.MstVersion, h: MstHeader, table: seq<u8>)
    ensures var b, little := ArchiveBytes(id, v, h, table), Identity.IsLittle(id);
            b[..VERSION_AT] == Identity.IdentifierBytes(id)
            && ReadU32(b[VERSION_AT..HEADER_AT], little) == v.bits
            && b[HEADER_AT..TABLE_AT] == HeaderBytes(h, little)
            && b[TABLE_AT..] == table
  {
    var little := Identity.IsLittle(id);
    var p, t := PrefixBytes(id, v, h), table;
    PrefixParts(id, v, h);
    U32RoundTrip(v.bits, little);
    SliceLeft(p, t, 0, VERSION_AT);
    SliceLeft(p, t, VERSION_AT, HEADER_AT);
    SliceLeft(p, t, HEADER_AT, TABLE_AT);
  }

  /** Word `i` of the header sits at file offset `8 + 4 * i`. */
  lemma HeaderWordAt(id: Identity.MstIdentifier, v: Identity.MstVersion, h: MstHeader, table: seq<u8>, i: nat)
    requires i < 25
    ensures var b := ArchiveBytes(id, v, h, table);
            ReadU32(b[HEADER_AT + 4 * i..HEADER_AT + 4 * i + 4], Identity.IsLittle(id)) == Words(h)[i]
  {
    var little := Identity.IsLittle(id);
    var b, hb := ArchiveBytes(id, v, h, table), HeaderBytes(h, little);
    ArchiveLayout(id, v, h, table);
    assert b[HEADER_AT + 4 * i..HEADER_AT + 4 * i + 4] == hb[4 * i..4 * i + 4];
    WordAt(Words(h), i, little);
    U32RoundTrip(Words(h)[i], little);
  }

  /** The header fields at their file offsets: the file size at 8, the four
      counts (live, free, support, free support) at 12, 16, 20 and 24, the data
      offset at 28; each in the magic's byte order. */
  lemma HeaderFieldOffsets(id: Identity.MstIdentifier, v: Identity.MstVersion, h: MstHeader, table: seq<u8>)
    ensures var b, little := ArchiveBytes(id, v, h, table), Identity.IsLittle(id);
            ReadU32(b[FILE_SIZE_AT..FILE_SIZE_AT + 4], little) == h.bytesInFile
            && ReadU32(b[12..16], little) == h.numEntries
            && ReadU32(b[16..20], little) == h.numFreeEntries
            && ReadU32(b[20..24], little) == h.numSupportEntries
            && ReadU32(b[24..28], little) == h.numFreeSupportEntries
            && ReadU32(b[DATA_OFFSET_AT..DATA_OFFSET_AT + 4], little) == h.dataOffset
  {
    HeaderWordAt(id, v, h, table, 0);
    HeaderWordAt(id, v, h, table, 1);
    HeaderWordAt(id, v, h, table, 2);
    HeaderWordAt(id, v, h, table, 3);
    HeaderWordAt(id, v, h, table, 4);
    HeaderWordAt(id, v, h, table, 5);
  }

  /** Reading an archive: the magic picks the byte order of everything after it;
      the table layout is chosen from the version word and sized by the header.
      Whatever follows the table is not read. */
  function ParseArchive(input: seq<u8>): Result<(Identity.MstIdentifier, Identity.MstVersion, MstHeader, Entries), Error>
  {
    if |input| < TABLE_AT then Err(UnexpectedEof)
    else
      var id := Identity.ReadIdentifier(input[..VERSION_AT]);
      var little := Identity.IsLittle(id);
      var v := Identity.ReadVersion(input[VERSION_AT..HEADER_AT], little);
      var h := ReadHeader(input[HEADER_AT..TABLE_AT], little);
      match ReadEntries(input[TABLE_AT..], v, h, little)
      case Ok((e, _)) => Ok((id, v, h, e))
      case Err(err) => Err(err)
  }

  /** A written archive reads back as the identifier, version, header and table
      it was written from, when the table matches the version, the header
      carries the table's counts and an unknown magic is neither "FANG" nor "GNAF". */
  lemma ParseArchiveRoundTrip(id: Identity.MstIdentifier, v: Identity.MstVersion, h: MstHeader, e: Entries, rest: seq<u8>)
    requires MatchesVersion(e, v) && Counts(e) == HeaderCounts(h)
    requires id.Unknown? ==> id.magic != Identity.FANG && id.magic != Identity.GNAF
    ensures ParseArchive(ArchiveBytes(id, v, h, TableBytes(e, Identity.IsLittle(id))) + rest) == Ok((id, v, h, e))
  {
    var little := Identity.IsLittle(id);
    var p, t := PrefixBytes(id, v, h), TableBytes(e, little);
    PrefixParts(id, v, h);
    AppendAssoc(p, t, rest);
    var input := p + (t + rest);
    SliceLeft(p, t + rest, 0, VERSION_AT);
    SliceLeft(p, t + rest, VERSION_AT, HEADER_AT);
    SliceLeft(p, t + rest, HEADER_AT, TABLE_AT);
    assert input[TABLE_AT..] == t + rest;
    Identity.IdentifierRoundTrip(id);
    U32RoundTrip(v.bits, little);
    HeaderRoundTrip(h, little);
    ReadEntriesRoundTrip(e, v, h, little, rest);
  }

  /** An archive too short to hold a header is refused. */
  lemma ParseShortInput(input: seq<u8>)
    requires |input| < TABLE_AT
    ensures ParseArchive(input) == Err(UnexpectedEof)
  {
  }

  // ---------------------------------------------------------------------------
  // MstBody::convert

  /** The part of a body that `convert` changes. */
  datatype BodyState = BodyState(version: Identity.MstVersion, entries: Entries)

  /** `MstBody::convert` as written: a target other than 1.6.0, 1.7.0 or 1.8.0
      is refused outright; otherwise the minor field is set first, and an error
      from `Entries::convert` then leaves that new minor in place. */
  function ConvertAsWritten(s: BodyState, major: u8, minor: u8, patch: u8): (Outcome<Error>, BodyState)
  {
    if major == 1 && patch == 0 && 6 <= minor <= 8 then
      var v := s.version.SetMinor(minor);
      match EntryTable.Convert(s.entries, major, minor, patch, v.Ps2() > 0)
      case Ok(e) => (Pass, BodyState(v, e))
      case Err(err) => (Fail(err), BodyState(v, s.entries))
    else (Fail(UnknownTargetVersion), s)
  }

  /** `MstBody::convert` as evidently intended: the body changes only when the
      entry conversion succeeds. */
  function ConvertAtomic(s: BodyState, major: u8, minor: u8, patch: u8): (Outcome<Error>, BodyState)
  {
    if major == 1 && patch == 0 && 6 <= minor <= 8 then
      var v := s.version.SetMinor(minor);
      match EntryTable.Convert(s.entries, major, minor, patch, v.Ps2() > 0)
      case Ok(e) => (Pass, BodyState(v, e))
      case Err(err) => (Fail(err), s)
    else (Fail(UnknownTargetVersion), s)
  }

  /** What a successful conversion does: the target is 1.6.0, 1.7.0 or 1.8.0,
      only the minor field of the version changes, and the table is converted
      with the ps2 bit of the version it had before. An unlisted target fails
      without touching anything. Both definitions agree on every success. */
  lemma ConvertFacts(s: BodyState, major: u8, minor: u8, patch: u8)
    ensures var (r, s') := ConvertAsWritten(s, major, minor, patch);
            (r.Pass? ==>
               major == 1 && patch == 0 && 6 <= minor <= 8
               && s'.version.Fields() == s.version.Fields().(minor := minor)
               && EntryTable.Convert(s.entries, major, minor, patch, s.version.Ps2() > 0) == Ok(s'.entries))
            && (!(major == 1 && patch == 0 && 6 <= minor <= 8) ==> r == Fail(UnknownTargetVersion) && s' == s)
    ensures ConvertAsWritten(s, major, minor, patch).0.Pass? ==>
              ConvertAtomic(s, major, minor, patch) == ConvertAsWritten(s, major, minor, patch)
  {
  }

  /** A successful conversion keeps a body writable: a table that matched its
      version still matches the new version. */
  lemma ConvertKeepsWritable(s: BodyState, major: u8, minor: u8, patch: u8)
    requires MatchesVersion(s.entries, s.version)
    ensures MatchesVersion(ConvertAtomic(s, major, minor, patch).1.entries, ConvertAtomic(s, major, minor, patch).1.version)
  {
    if major == 1 && patch == 0 && 6 <= minor <= 8 {
      var v := s.version.SetMinor(minor);
      if EntryTable.Convert(s.entries, major, minor, patch, v.Ps2() > 0).Ok? {
        assert s.version.Major() == 1;
        EntryTable.ConvertedMatches(s.entries, major, minor, patch, v.Ps2() > 0, v);
      }
    }
  }

  /** The corrected conversion leaves the body as it was whenever it fails. */
  lemma ConvertAtomicOnFailure(s: BodyState, major: u8, minor: u8, patch: u8)
    ensures ConvertAtomic(s, major, minor, patch).0.Fail? ==> ConvertAtomic(s, major, minor, patch).1 == s
  {
  }

  /** A 1.8.0 PS2 body: major 1, minor 8, the ps2 bit, an empty table. */
  const PS2_BODY: BodyState :=
    BodyState(Identity.MstVersion(0x2001_0800), V180PS2(InnerEntries([], [], [], [])))

  /** As written, converting a PS2 body to 1.7.0 fails (the ps2 bit rules out
      every target but 1.8.0) after the minor has already become 7, and the body
      it leaves behind can no longer be written: its PS2 table does not match
      a 1.7 version. */
  lemma ConvertAsWrittenNotAtomic()
    ensures MatchesVersion(PS2_BODY.entries, PS2_BODY.version)
    ensures var (r, s') := ConvertAsWritten(PS2_BODY, 1, 7, 0);
            r == Fail(ConversionUnknown) && s'.version.Minor() == 7 && s' != PS2_BODY
            && !MatchesVersion(s'.entries, s'.version)
  {
    var f := Identity.VersionFields(0, 8, 1, 0, 0, 0, 0, 0, 1, 0);
    assert Identity.Pack(f) == 0x2001_0800;
    Identity.UnpackPack(f);
    var v' := PS2_BODY.version.SetMinor(7);
    assert v'.Fields() == f.(minor := 7);
  }

  /** The body of an archive: version word, header and table. */
  class MstBody {
    var version: Identity.MstVersion
    var header: MstHeader
    var entries: Entries

    constructor (version: Identity.MstVersion, header: MstHeader, entries: Entries)
      ensures this.version == version && this.header == header && this.entries == entries
    {
      this.version := version;
      this.header := header;
      this.entries := entries;
    }

    /** `MstBody::convert`, as written. */
    method Convert(major: u8, minor: u8, patch: u8) returns (r: Outcome<Error>)
      modifies this
      ensures (r, BodyState(version, entries)) == ConvertAsWritten(BodyState(old(version), old(entries)), major, minor, patch)
      ensures header == old(header)
    {
      if major == 1 && patch == 0 && (minor == 6 || minor == 7 || minor == 8) {
        version := version.SetMinor(minor);
        var converted := EntryTable.Convert(entries, major, minor, patch, version.Ps2() > 0);
        match converted
        case Ok(e) =>
          entries := e;
          r := Pass;
        case Err(err) =>
          r := Fail(err);
      } else {
        r := Fail(UnknownTargetVersion);
      }
    }

    /** `MstBody::convert` with the version updated only once the table is converted. */
    method ConvertAtomically(major: u8, minor: u8, patch: u8) returns (r: Outcome<Error>)
      modifies this
      ensures (r, BodyState(version, entries)) == ConvertAtomic(BodyState(old(version), old(entries)), major, minor, patch)
      ensures header == old(header)
    {
      if major == 1 && patch == 0 && (minor == 6 || minor == 7 || minor == 8) {
        var v := version.SetMinor(minor);
        var converted := EntryTable.Convert(entries, major, minor, patch, v.Ps2() > 0);
        match converted
        case Ok(e) =>
          version, entries := v, e;
          r := Pass;
        case Err(err) =>
          r := Fail(err);
      } else {
        r := Fail(UnknownTargetVersion);
      }
    }
  }

  /** `Mst`: the identifier and the body. */
  class Mst {
    var identifier: Identity.MstIdentifier
    var body: MstBody

    constructor (identifier: Identity.MstIdentifier, body: MstBody)
      ensures this.identifier == identifier && this.body == body
    {
      this.identifier := identifier;
      this.body := body;
    }

    /** `collect_entries`: the live entries in table order, in canonical form. */
    function CollectEntries(): (r: seq<CanonicalEntry>)
      reads this, body
      ensures r == Canonical(body.entries).entries
      ensures |r| == Counts(body.entries).0
    {
      match body.entries
      case V180PS2(inner) => inner.entries
      case V180(inner) => MapSeq(inner.entries, V180ToCanonical)
      case V170(inner) => MapSeq(inner.entries, V170ToCanonical)
      case V160(inner) => MapSeq(inner.entries, V160ToCanonical)
    }

    /** `collect_support_entries`: the live support entries in table order, in canonical form. */
    function CollectSupportEntries(): (r: seq<CanonicalSupportEntry>)
      reads this, body
      ensures r == Canonical(body.entries).supportEntries
      ensures |r| == Counts(body.entries).2
    {
      match body.entries
      case V180PS2(inner) => inner.supportEntries
      case V180(inner) => MapSeq(inner.supportEntries, SupportToCanonical)
      case V170(inner) => MapSeq(inner.supportEntries, SupportToCanonical)
      case V160(inner) => MapSeq(inner.supportEntries, SupportToCanonical)
    }

    /** Writes the archive at the end of the output, recording the offset field
        of every live entry. The table's write assert fires after the magic,
        version word and header have been written. */
    method Write(w: Stream, entryOffsets: seq<nat>) returns (r: Result<seq<nat>, Error>)
      requires w.pos == |w.data|
      modifies w
      ensures w.pos == |w.data|
      ensures var little := Identity.IsLittle(identifier);
              if MatchesVersion(body.entries, body.version) then
                r == Ok(entryOffsets + RowSites(old(w.pos) + TABLE_AT, LiveRows(body.entries, little)))
                && w.data == old(w.data) + ArchiveBytes(identifier, body.version, body.header, TableBytes(body.entries, little))
              else
                r == Err(VersionMismatch)
                && w.data == old(w.data) + PrefixBytes(identifier, body.version, body.header)
    {
      r := WriteArchive(w, identifier, body.version, body.header, body.entries, entryOffsets);
    }
  }

  /** The writes of `Mst`'s binrw writer, on the archive's parts. */
  method WriteArchive(w: Stream, id: Identity.MstIdentifier, v: Identity.MstVersion, h: MstHeader,
                      e: Entries, entryOffsets: seq<nat>)
    returns (r: Result<seq<nat>, Error>)
    requires w.pos == |w.data|
    modifies w
    ensures w.pos == |w.data|
    ensures var little := Identity.IsLittle(id);
            if MatchesVersion(e, v) then
              r == Ok(entryOffsets + RowSites(old(w.pos) + TABLE_AT, LiveRows(e, little)))
              && w.data == old(w.data) + ArchiveBytes(id, v, h, TableBytes(e, little))
            else
              r == Err(VersionMismatch) && w.data == old(w.data) + PrefixBytes(id, v, h)
  {
    var little := Identity.IsLittle(id);
    ghost var d := w.data;
    WritePrefix(w, id, v, h);
    r := WriteEntries(w, e, v, little, entryOffsets);
    if r.Ok? {
      AppendAssoc(d, PrefixBytes(id, v, h), TableBytes(e, little));
    }
  }

  /** Writes the magic, the version word and the header at the end of the output. */
  method WritePrefix(w: Stream, id: Identity.MstIdentifier, v: Identity.MstVersion, h: MstHeader)
    requires w.pos == |w.data|
    modifies w
    ensures w.pos == |w.data|
    ensures w.data == old(w.data) + PrefixBytes(id, v, h)
  {
    var little := Identity.IsLittle(id);
    ghost var d := w.data;
    var magic, versionBytes, headerBytes :=
      Identity.IdentifierBytes(id), Identity.VersionBytes(v, little), HeaderBytes(h, little);
    OverwriteAtEnd(w.data, magic);
    w.WriteAll(magic);
    OverwriteAtEnd(w.data, versionBytes);
    w.WriteAll(versionBytes);
    OverwriteAtEnd(w.data, headerBytes);
    w.WriteAll(headerBytes);
    AppendAssoc(d, magic + versionBytes, headerBytes);
    AppendAssoc(d, magic, versionBytes);
  }

  /** Only the live lists are collected: converting keeps the collected entries
      in order, projected onto what the target revision can hold. */
  lemma CollectAfterConvert(e: Entries, major: u8, minor: u8, patch: u8, ps2: bool)
    requires EntryTable.Convert(e, major, minor, patch, ps2).Ok?
    ensures var e' := EntryTable.Convert(e, major, minor, patch, ps2).value;
            var t := RevisionOf(e');
            Canonical(e').entries == MapSeq(Canonical(e).entries, x => ProjectEntry(x, Wide(t), HasFlags(t), HasCrc(t)))
            && Canonical(e').supportEntries == MapSeq(Canonical(e).supportEntries, s => ProjectSupport(s, Wide(t)))
  {
    ConvertResult(e, major, minor, patch, ps2);
  }
}
