/** The older MST codec (src/parsers/mst.rs): the same archive layout as the
    `fang` engine, read and written by binrw with a single entry type whose
    optional fields follow the version, and a writer that records the position
    of every entry's offset field. */
module LegacyParser {
  import opened Bytes
  import opened Wrappers
  import opened Io
  import opened Util
  import opened Header
  import Identity
  import Entry
  import EntryTable
  import Archive

  // ---------------------------------------------------------------------------
  // Platform and filename width

  datatype MstPlatform = PC | GameCube | PlayStation2 | UnknownPlatform

  /** `MstVersion::platform`: the pc bit is looked at first, then gc, then ps2. */
  function Platform(v: Identity.MstVersion): (p: MstPlatform)
    ensures p == PC <==> v.Pc() == 1
    ensures p == GameCube <==> v.Pc() == 0 && v.Gc() == 1
    ensures p == PlayStation2 <==> v.Pc() == 0 && v.Gc() == 0 && v.Ps2() == 1
    ensures p == UnknownPlatform <==> v.Pc() == 0 && v.Gc() == 0 && v.Ps2() == 0
  {
    if v.Pc() > 0 then PC
    else if v.Gc() > 0 then GameCube
    else if v.Ps2() > 0 then PlayStation2
    else UnknownPlatform
  }

  /** `MstVersion::entry_name_length`: 20-byte names for PlayStation 2 archives
      of version 1.8, 16 bytes otherwise. */
  function NameLength(v: Identity.MstVersion): nat
  {
    match (Platform(v), v.Major(), v.Minor())
    case (PlayStation2, 1, 8) => 20
    case _ => 16
  }

  /** The width is 20 exactly for a version 1.8 word whose ps2 bit is the only
      platform bit among pc, gc and ps2; in that sense it is narrower than the
      `fang` engine's rule, which looks at the ps2 bit alone: the two disagree
      on a 1.8 word that sets ps2 together with pc or gc. */
  lemma NameLengthAgainstFang(v: Identity.MstVersion)
    ensures NameLength(v) == 20 || NameLength(v) == 16
    ensures NameLength(v) == 20 <==>
            v.Ps2() == 1 && v.Pc() == 0 && v.Gc() == 0 && v.Major() == 1 && v.Minor() == 8
    ensures NameLength(v) != v.EntryNameLength() <==>
            v.Ps2() == 1 && v.Major() == 1 && v.Minor() == 8 && (v.Pc() == 1 || v.Gc() == 1)
  {
    var p := Platform(v);
  }

  // ---------------------------------------------------------------------------
  // Entries

  /** `MstEntry`. The timestamp is kept as the stored epoch seconds. */
  datatype MstEntry = MstEntry(
    filename: seq<u8>,
    flags: Option<u16>,
    reserved: Option<u16>,
    offset: u32,
    size: u32,
    timestamp: u32,
    crc: Option<u32>)

  /** `MstSupportEntry` */
  datatype MstSupportEntry = MstSupportEntry(filename: seq<u8>, timestamp: u32)

  /** The flags and the two reserved bytes are stored from version 1.8 on ... */
  predicate HasFlags(major: u8, minor: u8)
  {
    major >= 1 && minor >= 8
  }

  /** ... and the crc from version 1.7 on. */
  predicate HasCrc(major: u8, minor: u8)
  {
    major >= 1 && minor >= 7
  }

  function FlagsSize(hasFlags: bool): nat { if hasFlags then 4 else 0 }

  function CrcSize(hasCrc: bool): nat { if hasCrc then 4 else 0 }

  /** Bytes of one stored entry for a name width and version. */
  function EntrySize(nameLength: nat, major: u8, minor: u8): nat
  {
    nameLength + FlagsSize(HasFlags(major, minor)) + 4 + 8 + CrcSize(HasCrc(major, minor))
  }

  function OptionalU16(x: Option<u16>, little: bool): (b: seq<u8>)
    ensures |b| == if x.Some? then 2 else 0
  {
    if x.Some? then U16Bytes(x.value, little) else []
  }

  function OptionalU32(x: Option<u32>, little: bool): (b: seq<u8>)
    ensures |b| == if x.Some? then 4 else 0
  {
    if x.Some? then U32Bytes(x.value, little) else []
  }

  /** binrw's writer for `MstEntry`: the name padded to `nameLength`, then each
      optional field when it is present, whatever the version says; the offset
      field is the one the writer records. */
  function EntryRow(e: MstEntry, nameLength: nat, little: bool): (r: Entry.Row)
    ensures |r.head| == nameLength + |OptionalU16(e.flags, little)| + |OptionalU16(e.reserved, little)|
    ensures |r.tail| == 8 + |OptionalU32(e.crc, little)|
  {
    Entry.Row(StringToVec(e.filename, nameLength) + OptionalU16(e.flags, little) + OptionalU16(e.reserved, little),
              e.offset,
              U32Bytes(e.size, little) + U32Bytes(e.timestamp, little) + OptionalU32(e.crc, little))
  }

  /** The fields before the offset: the name up to its first zero byte, and the
      flags and reserved half-words when the version has them. */
  function ReadHead(b: seq<u8>, nameLength: nat, hasFlags: bool, little: bool): (seq<u8>, Option<u16>, Option<u16>)
    requires |b| == nameLength + FlagsSize(hasFlags)
  {
    var n := nameLength;
    (VecToNullTerminatedStr(b[..n]),
     if hasFlags then Some(ReadU16(b[n..n + 2], little)) else None,
     if hasFlags then Some(ReadU16(b[n + 2..n + 4], little)) else None)
  }

  /** The fields after the offset: size, timestamp and, when the version has it, the crc. */
  function ReadTail(b: seq<u8>, hasCrc: bool, little: bool): (u32, u32, Option<u32>)
    requires |b| == 8 + CrcSize(hasCrc)
  {
    (ReadU32(b[..4], little), ReadU32(b[4..8], little),
     if hasCrc then Some(ReadU32(b[8..12], little)) else None)
  }

  /** binrw's reader for `MstEntry`. */
  function ReadEntry(b: seq<u8>, nameLength: nat, major: u8, minor: u8, little: bool): MstEntry
    requires |b| == EntrySize(nameLength, major, minor)
  {
    var k := nameLength + FlagsSize(HasFlags(major, minor));
    var head := ReadHead(b[..k], nameLength, HasFlags(major, minor), little);
    var tail := ReadTail(b[k + 4..], HasCrc(major, minor), little);
    MstEntry(head.0, head.1, head.2, ReadU32(b[k..k + 4], little), tail.0, tail.1, tail.2)
  }

  /** An entry as the reader builds it for a name width and version: a NUL-free
      name that fits the field, and exactly the optional fields the version has. */
  predicate Fits(e: MstEntry, nameLength: nat, major: u8, minor: u8)
  {
    NoNul(e.filename) && |e.filename| <= nameLength
    && e.flags.Some? == HasFlags(major, minor) && e.reserved.Some? == HasFlags(major, minor)
    && e.crc.Some? == HasCrc(major, minor)
  }

  /** Every entry the reader builds fits its width and version. */
  lemma ReadEntryFits(b: seq<u8>, nameLength: nat, major: u8, minor: u8, little: bool)
    requires |b| == EntrySize(nameLength, major, minor)
    ensures Fits(ReadEntry(b, nameLength, major, minor, little), nameLength, major, minor)
  {
  }

  /** The three parts of a stored row, where they sit. */
  lemma RowParts(r: Entry.Row, little: bool)
    ensures var b, h := Entry.RowBytes(r, little), |r.head|;
            b[..h] == r.head && b[h..h + 4] == U32Bytes(r.offset, little) && b[h + 4..] == r.tail
  {
  }

  /** A head assembled from a name field and the two optional half-words reads
      back as the field's text and the two half-words. */
  lemma ReadHeadOfParts(name: seq<u8>, flags: Option<u16>, reserved: Option<u16>, hasFlags: bool, little: bool)
    requires flags.Some? == hasFlags && reserved.Some? == hasFlags
    ensures var h := name + OptionalU16(flags, little) + OptionalU16(reserved, little);
            |h| == |name| + FlagsSize(hasFlags)
            && ReadHead(h, |name|, hasFlags, little) == (VecToNullTerminatedStr(name), flags, reserved)
  {
    var n, f, r := |name|, OptionalU16(flags, little), OptionalU16(reserved, little);
    var h := name + f + r;
    assert h[..n] == name;
    if hasFlags {
      assert h[n..n + 2] == f && h[n + 2..n + 4] == r;
      U16RoundTrip(flags.value, little);
      U16RoundTrip(reserved.value, little);
    }
  }

  lemma HeadRoundTrip(e: MstEntry, nameLength: nat, major: u8, minor: u8, little: bool)
    requires Fits(e, nameLength, major, minor)
    ensures var h := EntryRow(e, nameLength, little).head;
            |h| == nameLength + FlagsSize(HasFlags(major, minor))
            && ReadHead(h, nameLength, HasFlags(major, minor), little) == (e.filename, e.flags, e.reserved)
  {
    ReadHeadOfParts(StringToVec(e.filename, nameLength), e.flags, e.reserved, HasFlags(major, minor), little);
    StringRoundTrip(e.filename, nameLength);
    assert e.filename[..|e.filename|] == e.filename;
  }

  lemma TailRoundTrip(e: MstEntry, nameLength: nat, major: u8, minor: u8, little: bool)
    requires Fits(e, nameLength, major, minor)
    ensures var t := EntryRow(e, nameLength, little).tail;
            |t| == 8 + CrcSize(HasCrc(major, minor))
            && ReadTail(t, HasCrc(major, minor), little) == (e.size, e.timestamp, e.crc)
  {
    var s, ts, c := U32Bytes(e.size, little), U32Bytes(e.timestamp, little), OptionalU32(e.crc, little);
    var t := s + ts + c;
    assert t[..4] == s && t[4..8] == ts;
    U32RoundTrip(e.size, little);
    U32RoundTrip(e.timestamp, little);
    if HasCrc(major, minor) {
      assert t[8..12] == c;
      U32RoundTrip(e.crc.value, little);
    }
  }

  /** An entry that fits its width and version is stored in `EntrySize` bytes
      and reads back as itself. */
  lemma EntryRoundTrip(e: MstEntry, nameLength: nat, major: u8, minor: u8, little: bool)
    requires Fits(e, nameLength, major, minor)
    ensures |Entry.RowBytes(EntryRow(e, nameLength, little), little)| == EntrySize(nameLength, major, minor)
    ensures ReadEntry(Entry.RowBytes(EntryRow(e, nameLength, little), little), nameLength, major, minor, little) == e
  {
    var r := EntryRow(e, nameLength, little);
    RowParts(r, little);
    HeadRoundTrip(e, nameLength, major, minor, little);
    TailRoundTrip(e, nameLength, major, minor, little);
    U32RoundTrip(e.offset, little);
  }

  /** The optional half-words of a head, read and written back, are the same bytes. */
  lemma FlagsRewrite(h: seq<u8>, nameLength: nat, hasFlags: bool, little: bool)
    requires |h| == nameLength + FlagsSize(hasFlags)
    ensures var r := ReadHead(h, nameLength, hasFlags, little);
            OptionalU16(r.1, little) + OptionalU16(r.2, little) == h[nameLength..]
  {
    var n := nameLength;
    if hasFlags {
      U16BytesOfRead(h[n..n + 2], little);
      U16BytesOfRead(h[n + 2..n + 4], little);
      assert h[n..] == h[n..n + 2] + h[n + 2..n + 4];
    }
  }

  /** The fields before the offset, read and written back: the same bytes
      exactly when the name field is zero-padded. */
  lemma HeadRewrite(h: seq<u8>, nameLength: nat, hasFlags: bool, little: bool)
    requires |h| == nameLength + FlagsSize(hasFlags)
    ensures var r := ReadHead(h, nameLength, hasFlags, little);
            StringToVec(r.0, nameLength) + OptionalU16(r.1, little) + OptionalU16(r.2, little) == h
            <==> ZeroPadded(h[..nameLength])
  {
    var n := nameLength;
    var r := ReadHead(h, n, hasFlags, little);
    var name, rest := StringToVec(r.0, n), OptionalU16(r.1, little) + OptionalU16(r.2, little);
    FlagsRewrite(h, n, hasFlags, little);
    FieldRewrite(h[..n]);
    AppendAssoc(name, OptionalU16(r.1, little), OptionalU16(r.2, little));
    assert h == h[..n] + h[n..];
    AppendCancel(name, rest, h[..n], h[n..]);
  }

  /** The fields after the offset, read and written back, are the same bytes. */
  lemma TailRewrite(t: seq<u8>, hasCrc: bool, little: bool)
    requires |t| == 8 + CrcSize(hasCrc)
    ensures var r := ReadTail(t, hasCrc, little);
            U32Bytes(r.0, little) + U32Bytes(r.1, little) + OptionalU32(r.2, little) == t
  {
    U32BytesOfRead(t[..4], little);
    U32BytesOfRead(t[4..8], little);
    if hasCrc {
      U32BytesOfRead(t[8..12], little);
      assert t == t[..4] + t[4..8] + t[8..12];
    } else {
      assert t == t[..4] + t[4..8];
    }
  }

  /** Reading a stored entry and writing it back gives the same bytes exactly
      when its name field holds nothing but zeros after the name. */
  lemma EntryRewrite(b: seq<u8>, nameLength: nat, major: u8, minor: u8, little: bool)
    requires |b| == EntrySize(nameLength, major, minor)
    ensures Entry.RowBytes(EntryRow(ReadEntry(b, nameLength, major, minor, little), nameLength, little), little) == b
            <==> ZeroPadded(b[..nameLength])
  {
    var k := nameLength + FlagsSize(HasFlags(major, minor));
    var r := EntryRow(ReadEntry(b, nameLength, major, minor, little), nameLength, little);
    RowOfRead(b, nameLength, major, minor, little);
    SplitThree(b, k, k + 4);
    RowMatches(r, b[..k], b[k..k + 4], b[k + 4..], little);
  }

  /** The row of an entry read from `b`, part by part: its offset and tail are
      the stored ones, and its head is the stored one exactly when the name
      field is zero-padded. */
  lemma RowOfRead(b: seq<u8>, nameLength: nat, major: u8, minor: u8, little: bool)
    requires |b| == EntrySize(nameLength, major, minor)
    ensures var k := nameLength + FlagsSize(HasFlags(major, minor));
            var r := EntryRow(ReadEntry(b, nameLength, major, minor, little), nameLength, little);
            |r.head| == k && U32Bytes(r.offset, little) == b[k..k + 4] && r.tail == b[k + 4..]
            && (r.head == b[..k] <==> ZeroPadded(b[..nameLength]))
  {
    var n := nameLength;
    var k := n + FlagsSize(HasFlags(major, minor));
    var h, t := b[..k], b[k + 4..];
    HeadRewrite(h, n, HasFlags(major, minor), little);
    TailRewrite(t, HasCrc(major, minor), little);
    U32BytesOfRead(b[k..k + 4], little);
    assert h[..n] == b[..n];
  }

  /** A row whose offset and tail match the stored bytes is those bytes
      exactly when its head matches too. */
  lemma RowMatches(r: Entry.Row, h: seq<u8>, ob: seq<u8>, t: seq<u8>, little: bool)
    requires |r.head| == |h| && U32Bytes(r.offset, little) == ob && r.tail == t
    ensures Entry.RowBytes(r, little) == h + ob + t <==> r.head == h
  {
    var o := U32Bytes(r.offset, little);
    AppendCancel(r.head + o, r.tail, h + ob, t);
    AppendCancel(r.head, o, h, ob);
  }

  /** binrw's writer for `MstSupportEntry`. */
  function SupportRecord(s: MstSupportEntry, nameLength: nat, little: bool): (b: seq<u8>)
    ensures |b| == nameLength + 4
  {
    StringToVec(s.filename, nameLength) + U32Bytes(s.timestamp, little)
  }

  /** binrw's reader for `MstSupportEntry`. */
  function ReadSupportRecord(b: seq<u8>, nameLength: nat, little: bool): MstSupportEntry
    requires |b| == nameLength + 4
  {
    MstSupportEntry(VecToNullTerminatedStr(b[..nameLength]), ReadU32(b[nameLength..], little))
  }

  predicate SupportFits(s: MstSupportEntry, nameLength: nat)
  {
    NoNul(s.filename) && |s.filename| <= nameLength
  }

  /** A support entry that fits its width reads back as itself. */
  lemma SupportRoundTrip(s: MstSupportEntry, nameLength: nat, little: bool)
    requires SupportFits(s, nameLength)
    ensures ReadSupportRecord(SupportRecord(s, nameLength, little), nameLength, little) == s
  {
    var b := SupportRecord(s, nameLength, little);
    assert b[..nameLength] == StringToVec(s.filename, nameLength);
    assert b[nameLength..] == U32Bytes(s.timestamp, little);
    StringRoundTrip(s.filename, nameLength);
    U32RoundTrip(s.timestamp, little);
  }

  // ---------------------------------------------------------------------------
  // The archive

  /** `Mst`, with its `MstBody` spelled out: identifier, version, header and
      the two stored lists, live and free records together. */
  datatype Mst = Mst(
    identifier: Identity.MstIdentifier,
    version: Identity.MstVersion,
    header: MstHeader,
    allEntries: seq<MstEntry>,
    allSupportEntries: seq<MstSupportEntry>)

  /** `(num_entries + num_free_entries) as usize`: the sum is a u32 sum, which
      wraps past 2^32 - 1 in a release build. */
  function EntryCount(h: MstHeader): u32
  {
    AsU32(h.numEntries + h.numFreeEntries)
  }

  function SupportCount(h: MstHeader): u32
  {
    AsU32(h.numSupportEntries + h.numFreeSupportEntries)
  }

  function ReadEntries(chunks: seq<seq<u8>>, nameLength: nat, major: u8, minor: u8, little: bool): (es: seq<MstEntry>)
    requires EntryTable.AllSized(chunks, EntrySize(nameLength, major, minor))
    ensures |es| == |chunks|
    ensures forall i :: 0 <= i < |chunks| ==> es[i] == ReadEntry(chunks[i], nameLength, major, minor, little)
  {
    seq(|chunks|, i requires 0 <= i < |chunks| => ReadEntry(chunks[i], nameLength, major, minor, little))
  }

  function ReadSupports(chunks: seq<seq<u8>>, nameLength: nat, little: bool): (ss: seq<MstSupportEntry>)
    requires EntryTable.AllSized(chunks, nameLength + 4)
    ensures |ss| == |chunks|
    ensures forall i :: 0 <= i < |chunks| ==> ss[i] == ReadSupportRecord(chunks[i], nameLength, little)
  {
    seq(|chunks|, i requires 0 <= i < |chunks| => ReadSupportRecord(chunks[i], nameLength, little))
  }

  /** Bytes the two stored lists take for a version and header. */
  function ListsSize(v: Identity.MstVersion, h: MstHeader): nat
  {
    EntryCount(h) * EntrySize(NameLength(v), v.Major(), v.Minor()) + SupportCount(h) * (NameLength(v) + 4)
  }

  /** The two stored lists, read from the front of `table`. */
  function ReadLists(table: seq<u8>, v: Identity.MstVersion, h: MstHeader, little: bool)
    : Option<(seq<MstEntry>, seq<MstSupportEntry>)>
  {
    var n := NameLength(v);
    match EntryTable.ReadChunks(table, EntryCount(h), EntrySize(n, v.Major(), v.Minor()))
    case None => None
    case Some((chunks, rest)) =>
      match EntryTable.ReadChunks(rest, SupportCount(h), n + 4)
      case None => None
      case Some((supportChunks, _)) =>
        Some((ReadEntries(chunks, n, v.Major(), v.Minor(), little), ReadSupports(supportChunks, n, little)))
  }

  /** binrw's reader for `Mst`: the magic picks the byte order, the version
      word the name width and optional fields, the header how many records of
      each list follow. Whatever follows the lists is not read. */
  function ReadMst(input: seq<u8>): Option<Mst>
  {
    if |input| < Archive.TABLE_AT then None
    else
      var id := Identity.ReadIdentifier(input[..Archive.VERSION_AT]);
      var little := Identity.IsLittle(id);
      var v := Identity.ReadVersion(input[Archive.VERSION_AT..Archive.HEADER_AT], little);
      var h := ReadHeader(input[Archive.HEADER_AT..Archive.TABLE_AT], little);
      match ReadLists(input[Archive.TABLE_AT..], v, h, little)
      case None => None
      case Some((es, ss)) => Some(Mst(id, v, h, es, ss))
  }

  /** Reading the lists fails exactly when the table is shorter than they are. */
  lemma ReadListsFails(table: seq<u8>, v: Identity.MstVersion, h: MstHeader, little: bool)
    ensures ReadLists(table, v, h, little).None? <==> |table| < ListsSize(v, h)
  {
    var n, size := NameLength(v), EntrySize(NameLength(v), v.Major(), v.Minor());
    EntryTable.ReadChunksFits(table, EntryCount(h), size);
    var r := EntryTable.ReadChunks(table, EntryCount(h), size);
    if r.Some? {
      EntryTable.ConcatLength(r.value.0, size);
      EntryTable.ReadChunksFits(r.value.1, SupportCount(h), n + 4);
    }
  }

  /** Reading fails exactly when the input is too short for the header or for
      the records the header announces. */
  lemma ReadMstFails(input: seq<u8>)
    ensures ReadMst(input).None? <==>
            |input| < Archive.TABLE_AT
            || var little := Identity.IsLittle(Identity.ReadIdentifier(input[..Archive.VERSION_AT]));
               |input| < Archive.TABLE_AT + ListsSize(Identity.ReadVersion(input[Archive.VERSION_AT..Archive.HEADER_AT], little),
                                                      ReadHeader(input[Archive.HEADER_AT..Archive.TABLE_AT], little))
  {
    if |input| >= Archive.TABLE_AT {
      var little := Identity.IsLittle(Identity.ReadIdentifier(input[..Archive.VERSION_AT]));
      ReadListsFails(input[Archive.TABLE_AT..], Identity.ReadVersion(input[Archive.VERSION_AT..Archive.HEADER_AT], little),
                     ReadHeader(input[Archive.HEADER_AT..Archive.TABLE_AT], little), little);
    }
  }

  /** The lists as read: as many records as the (wrapped) counts say, each
      fitting the version's layout. */
  lemma ReadListsFacts(table: seq<u8>, v: Identity.MstVersion, h: MstHeader, little: bool)
    requires ReadLists(table, v, h, little).Some?
    ensures var (es, ss) := ReadLists(table, v, h, little).value;
            |es| == EntryCount(h) && |ss| == SupportCount(h)
            && (forall i :: 0 <= i < |es| ==> Fits(es[i], NameLength(v), v.Major(), v.Minor()))
            && (forall i :: 0 <= i < |ss| ==> SupportFits(ss[i], NameLength(v)))
  {
    var n, major, minor := NameLength(v), v.Major(), v.Minor();
    var chunks := EntryTable.ReadChunks(table, EntryCount(h), EntrySize(n, major, minor)).value.0;
    forall i | 0 <= i < |chunks| ensures Fits(ReadEntry(chunks[i], n, major, minor, little), n, major, minor) {
      ReadEntryFits(chunks[i], n, major, minor, little);
    }
  }

  /** `Mst::entries`: the first `num_entries` records of the entry list, or
      all of them when the list is shorter. */
  function Entries(m: Mst): seq<MstEntry>
  {
    m.allEntries[..Entry.Min(m.header.numEntries, |m.allEntries|)]
  }

  /** `Mst::support_entries` */
  function SupportEntries(m: Mst): seq<MstSupportEntry>
  {
    m.allSupportEntries[..Entry.Min(m.header.numSupportEntries, |m.allSupportEntries|)]
  }

  /** A read archive's lists are the lists read after its header. */
  lemma ReadMstLists(input: seq<u8>)
    requires ReadMst(input).Some?
    ensures var m := ReadMst(input).value;
            |input| >= Archive.TABLE_AT
            && ReadLists(input[Archive.TABLE_AT..], m.version, m.header, Identity.IsLittle(m.identifier))
               == Some((m.allEntries, m.allSupportEntries))
  {
  }

  /** `entries()` yields `num_entries` records when the list holds the sum of
      the two counts; when that sum wrapped, only the wrapped sum. */
  lemma EntriesCount(m: Mst)
    requires |m.allEntries| == EntryCount(m.header) && |m.allSupportEntries| == SupportCount(m.header)
    ensures m.header.numEntries + m.header.numFreeEntries < 0x1_0000_0000 ==>
              |Entries(m)| == m.header.numEntries
    ensures m.header.numEntries + m.header.numFreeEntries >= 0x1_0000_0000 ==>
              |Entries(m)| == m.header.numEntries + m.header.numFreeEntries - 0x1_0000_0000 < m.header.numEntries
    ensures m.header.numSupportEntries + m.header.numFreeSupportEntries < 0x1_0000_0000 ==>
              |SupportEntries(m)| == m.header.numSupportEntries
  {
  }

  /** What a read archive holds: as many records as the (wrapped) counts say,
      each fitting the version's layout. */
  lemma ReadMstFacts(input: seq<u8>)
    requires ReadMst(input).Some?
    ensures var m := ReadMst(input).value;
            var n, major, minor := NameLength(m.version), m.version.Major(), m.version.Minor();
            |m.allEntries| == EntryCount(m.header) && |m.allSupportEntries| == SupportCount(m.header)
            && (forall i :: 0 <= i < |m.allEntries| ==> Fits(m.allEntries[i], n, major, minor))
            && (forall i :: 0 <= i < |m.allSupportEntries| ==> SupportFits(m.allSupportEntries[i], n))
  {
    var m := ReadMst(input).value;
    ReadMstLists(input);
    ReadListsFacts(input[Archive.TABLE_AT..], m.version, m.header, Identity.IsLittle(m.identifier));
  }

  // ---------------------------------------------------------------------------
  // Writing

  function EntryRows(es: seq<MstEntry>, nameLength: nat, little: bool): (rows: seq<Entry.Row>)
    ensures |rows| == |es| && forall i :: 0 <= i < |es| ==> rows[i] == EntryRow(es[i], nameLength, little)
  {
    seq(|es|, i requires 0 <= i < |es| => EntryRow(es[i], nameLength, little))
  }

  function SupportRecords(ss: seq<MstSupportEntry>, nameLength: nat, little: bool): (cs: seq<seq<u8>>)
    ensures |cs| == |ss| && forall i :: 0 <= i < |ss| ==> cs[i] == SupportRecord(ss[i], nameLength, little)
  {
    seq(|ss|, i requires 0 <= i < |ss| => SupportRecord(ss[i], nameLength, little))
  }

  /** The two stored lists of an archive, in its byte order and name width. */
  function ListsBytes(m: Mst): seq<u8>
  {
    var little, n := Identity.IsLittle(m.identifier), NameLength(m.version);
    EntryTable.RowsBytes(EntryRows(m.allEntries, n, little), little)
    + EntryTable.Concat(SupportRecords(m.allSupportEntries, n, little))
  }

  /** `align_after = 4096`: the zero bytes that take position `pos` to the
      next multiple of 4096. */
  function AlignPadding(pos: nat): (p: nat)
    ensures p < 4096 && (pos + p) % 4096 == 0
  {
    (4096 - pos % 4096) % 4096
  }

  /** `Mst` as written from position `start`: the magic, the version word in
      the archive's byte order, the header, the lists, then the padding. */
  function MstBytes(m: Mst, start: nat): seq<u8>
  {
    var body := Archive.ArchiveBytes(m.identifier, m.version, m.header, ListsBytes(m));
    body + Zeros(AlignPadding(start + |body|))
  }

  /** Writes an archive at the end of the output, appending to `entryOffsets`
      the position of every entry's offset field, free entries included. The
      version word is written in the archive's byte order (see
      `VersionBytesAsWritten` for what the source writes). */
  method Write(w: Stream, m: Mst, entryOffsets: seq<nat>) returns (recorded: seq<nat>)
    requires w.pos == |w.data|
    modifies w
    ensures w.pos == |w.data| && |w.data| % 4096 == 0
    ensures w.data == old(w.data) + MstBytes(m, old(w.pos))
    ensures recorded == entryOffsets + EntryTable.RowSites(old(w.pos) + Archive.TABLE_AT,
                                                          EntryRows(m.allEntries, NameLength(m.version), Identity.IsLittle(m.identifier)))
  {
    var little, n := Identity.IsLittle(m.identifier), NameLength(m.version);
    ghost var d := w.data;
    Archive.WritePrefix(w, m.identifier, m.version, m.header);
    var rows := EntryRows(m.allEntries, n, little);
    var offsets := EntryTable.WriteRows(w, rows, little, Some(entryOffsets));
    recorded := offsets.value;
    var supports := EntryTable.Concat(SupportRecords(m.allSupportEntries, n, little));
    OverwriteAtEnd(w.data, supports);
    w.WriteAll(supports);
    var padding := Zeros(AlignPadding(w.pos));
    OverwriteAtEnd(w.data, padding);
    w.WriteAll(padding);
    MstBytesParts(m, |d|);
    AppendFour(d, Archive.PrefixBytes(m.identifier, m.version, m.header), EntryTable.RowsBytes(rows, little),
               supports, padding);
  }

  /** The parts of a written archive, one after the other. */
  lemma MstBytesParts(m: Mst, start: nat)
    ensures var little, n := Identity.IsLittle(m.identifier), NameLength(m.version);
            var p := Archive.PrefixBytes(m.identifier, m.version, m.header);
            var r := EntryTable.RowsBytes(EntryRows(m.allEntries, n, little), little);
            var s := EntryTable.Concat(SupportRecords(m.allSupportEntries, n, little));
            MstBytes(m, start) == p + r + s + Zeros(AlignPadding(start + |p + r + s|))
  {
    var little, n := Identity.IsLittle(m.identifier), NameLength(m.version);
    var p := Archive.PrefixBytes(m.identifier, m.version, m.header);
    var r := EntryTable.RowsBytes(EntryRows(m.allEntries, n, little), little);
    var s := EntryTable.Concat(SupportRecords(m.allSupportEntries, n, little));
    AppendAssoc(p, r, s);
  }

  /** What the reader accepts back: a magic that reads as the identifier, the
      record counts the header announces, and records that fit the version. */
  predicate WellFormed(m: Mst)
  {
    var n, major, minor := NameLength(m.version), m.version.Major(), m.version.Minor();
    (m.identifier.Unknown? ==> m.identifier.magic != Identity.FANG && m.identifier.magic != Identity.GNAF)
    && |m.allEntries| == EntryCount(m.header) && |m.allSupportEntries| == SupportCount(m.header)
    && (forall i :: 0 <= i < |m.allEntries| ==> Fits(m.allEntries[i], n, major, minor))
    && (forall i :: 0 <= i < |m.allSupportEntries| ==> SupportFits(m.allSupportEntries[i], n))
  }

  /** Lists that fit the version and match the counts read back as themselves,
      whatever follows them. */
  lemma ReadListsRoundTrip(es: seq<MstEntry>, ss: seq<MstSupportEntry>, v: Identity.MstVersion, h: MstHeader,
                           little: bool, tail: seq<u8>)
    requires |es| == EntryCount(h) && |ss| == SupportCount(h)
    requires forall i :: 0 <= i < |es| ==> Fits(es[i], NameLength(v), v.Major(), v.Minor())
    requires forall i :: 0 <= i < |ss| ==> SupportFits(ss[i], NameLength(v))
    ensures var n := NameLength(v);
            var table := EntryTable.RowsBytes(EntryRows(es, n, little), little)
                         + EntryTable.Concat(SupportRecords(ss, n, little));
            ReadLists(table + tail, v, h, little) == Some((es, ss))
  {
    var n, major, minor := NameLength(v), v.Major(), v.Minor();
    var size := EntrySize(n, major, minor);
    var rows := EntryRows(es, n, little);
    var chunks := EntryTable.RowChunks(rows, little);
    var records := SupportRecords(ss, n, little);
    var supports := EntryTable.Concat(records);
    forall i | 0 <= i < |chunks|
      ensures |chunks[i]| == size && ReadEntry(chunks[i], n, major, minor, little) == es[i]
    {
      EntryRoundTrip(es[i], n, major, minor, little);
    }
    forall i | 0 <= i < |records| ensures ReadSupportRecord(records[i], n, little) == ss[i] {
      SupportRoundTrip(ss[i], n, little);
    }
    EntryTable.RowsBytesConcat(rows, little);
    AppendAssoc(EntryTable.Concat(chunks), supports, tail);
    EntryTable.ReadChunksRoundTrip(chunks, supports + tail, size);
    EntryTable.ReadChunksRoundTrip(records, tail, n + 4);
    assert ReadEntries(chunks, n, major, minor, little) == es;
    assert ReadSupports(records, n, little) == ss;
  }

  /** A well-formed archive, written from any position, reads back as itself,
      whatever follows it. */
  lemma ReadWritten(m: Mst, start: nat, rest: seq<u8>)
    requires WellFormed(m)
    ensures ReadMst(MstBytes(m, start) + rest) == Some(m)
  {
    var little := Identity.IsLittle(m.identifier);
    var p, t := Archive.PrefixBytes(m.identifier, m.version, m.header), ListsBytes(m);
    var pad := Zeros(AlignPadding(start + Archive.TABLE_AT + |t|));
    var input := MstBytes(m, start) + rest;
    AppendAssoc(p + t, pad, rest);
    AppendAssoc(p, t, pad + rest);
    assert input == p + (t + (pad + rest));
    Archive.PrefixParts(m.identifier, m.version, m.header);
    SliceLeft(p, t + (pad + rest), 0, Archive.VERSION_AT);
    SliceLeft(p, t + (pad + rest), Archive.VERSION_AT, Archive.HEADER_AT);
    SliceLeft(p, t + (pad + rest), Archive.HEADER_AT, Archive.TABLE_AT);
    assert input[Archive.TABLE_AT..] == t + (pad + rest);
    Identity.IdentifierRoundTrip(m.identifier);
    U32RoundTrip(m.version.bits, little);
    HeaderRoundTrip(m.header, little);
    ReadListsRoundTrip(m.allEntries, m.allSupportEntries, m.version, m.header, little, pad + rest);
  }

  /** The entry rows sit in a written archive right after the header: the
      positions `Write` records, which `EntryTable.RowSitesFacts` places on the
      offset fields of these rows, are therefore the offset fields of the
      archive's entries. */
  lemma RowsInImage(m: Mst, start: nat)
    ensures var r := EntryTable.RowsBytes(EntryRows(m.allEntries, NameLength(m.version), Identity.IsLittle(m.identifier)),
                                          Identity.IsLittle(m.identifier));
            var b := MstBytes(m, start);
            Archive.TABLE_AT + |r| <= |b| && b[Archive.TABLE_AT..Archive.TABLE_AT + |r|] == r
  {
    var little, n := Identity.IsLittle(m.identifier), NameLength(m.version);
    var p := Archive.PrefixBytes(m.identifier, m.version, m.header);
    var r := EntryTable.RowsBytes(EntryRows(m.allEntries, n, little), little);
    var s := EntryTable.Concat(SupportRecords(m.allSupportEntries, n, little));
    var pad := Zeros(AlignPadding(start + |p + r + s|));
    MstBytesParts(m, start);
    MiddleOfFour(MstBytes(m, start), p, r, s, pad);
  }

  /** The second of four parts, where it sits. */
  lemma MiddleOfFour(b: seq<u8>, p: seq<u8>, r: seq<u8>, s: seq<u8>, pad: seq<u8>)
    requires b == p + r + s + pad
    ensures |p| + |r| <= |b| && b[|p|..|p| + |r|] == r
  {
    SliceLeft(p + r + s, pad, |p|, |p| + |r|);
    SliceLeft(p + r, s, |p|, |p| + |r|);
    SliceRight(p, r, |p|, |p| + |r|);
  }

  // ---------------------------------------------------------------------------
  // The version word as the source writes it

  /** The version word as src/parsers/mst.rs writes it: the bitfield's own
      bytes, least significant first, whatever the archive's byte order. */
  function VersionBytesAsWritten(v: Identity.MstVersion): (b: seq<u8>)
    ensures |b| == 4
  {
    U32Bytes(v.bits, true)
  }

  /** For a little-endian archive this is the word in the archive's order, so a
      read and a write give its four bytes back. */
  lemma VersionAsWrittenLittle(b: seq<u8>)
    requires |b| == 4
    ensures VersionBytesAsWritten(Identity.ReadVersion(b, true)) == b
  {
    U32BytesOfRead(b, true);
  }

  /** For a big-endian archive the bytes come back reversed: a PlayStation 2
      version 1.8 word is written so that it reads back as version 8.1 with no
      platform bit, and the entry names shrink from 20 bytes to 16. */
  lemma VersionAsWrittenBigEndian()
    ensures var b: seq<u8> := [0x20, 0x01, 0x08, 0x00];
            var v := Identity.ReadVersion(b, false);
            var v' := Identity.ReadVersion(VersionBytesAsWritten(v), false);
            v.Ps2() == 1 && v.Major() == 1 && v.Minor() == 8 && NameLength(v) == 20
            && VersionBytesAsWritten(v) == [0x00, 0x08, 0x01, 0x20]
            && v'.Ps2() == 0 && v'.Major() == 8 && v'.Minor() == 1 && NameLength(v') == 16
  {
    var v := Identity.ReadVersion([0x20, 0x01, 0x08, 0x00], false);
    assert v.bits == 0x2001_0800;
    Identity.BitLayout(v);
    var v' := Identity.ReadVersion(VersionBytesAsWritten(v), false);
    assert v'.bits == 0x0008_0120;
    Identity.BitLayout(v');
  }

  /** `Mst` as the source writes it from position `start`: `MstBytes` with
      the version word replaced by `VersionBytesAsWritten`. */
  function MstBytesAsWritten(m: Mst, start: nat): seq<u8>
  {
    var little := Identity.IsLittle(m.identifier);
    var body := Identity.IdentifierBytes(m.identifier) + VersionBytesAsWritten(m.version)
                + HeaderBytes(m.header, little) + ListsBytes(m);
    body + Zeros(AlignPadding(start + |body|))
  }

  /** In a little-endian archive the source's writer gives the same bytes as
      the corrected one, so a well-formed archive it writes reads back as
      itself; for a big-endian one `VersionAsWrittenBigEndian` shows it does
      not. */
  lemma {:induction false} ReadWrittenAsWritten(m: Mst, start: nat, rest: seq<u8>)
    requires WellFormed(m) && Identity.IsLittle(m.identifier)
    ensures MstBytesAsWritten(m, start) == MstBytes(m, start)
    ensures ReadMst(MstBytesAsWritten(m, start) + rest) == Some(m)
  {
    var little := Identity.IsLittle(m.identifier);
    assert VersionBytesAsWritten(m.version) == Identity.VersionBytes(m.version, little);
    assert MstBytesAsWritten(m, start) == MstBytes(m, start);
    ReadWritten(m, start, rest);
  }
}
