/** `MstBuilder` (fang/src/mst/builder.rs): collects named content sources,
    creates the archive for a target revision and platform, writes it, lays
    the contents out after the table and patches the sizes and offsets in. */
module Builder {
  import opened Bytes
  import opened Wrappers
  import opened Errors
  import opened Io
  import opened Entry
  import opened Header
  import opened EntryTable
  import opened Archive
  import opened BuilderLayout
  import opened BuilderImage
  import Identity

  /** An entry path, or a path on the file system, as its bytes. */
  type Path = seq<u8>

  /** `MstBuilderEntrySource`: where an entry's content comes from. */
  datatype MstBuilderEntrySource =
    | File(path: Path, offset: nat, size: nat, timestamp: Option<u32>)
    | Memory(data: seq<u8>, timestamp: Option<u32>)

  /** The files a `File` source may name, by path. */
  type FileSystem = map<Path, seq<u8>>

  /** The size the table records for a source: the requested size of a file
      range, the length of the data in memory. */
  function SourceSize(s: MstBuilderEntrySource): nat
  {
    match s
    case File(_, _, size, _) => size
    case Memory(data, _) => |data|
  }

  /** `Utc::now().timestamp() as u32`: the low 32 bits of the clock's
      (possibly negative) seconds count. */
  function NowAsU32(now: int): (r: u32)
    ensures (now - r) % 0x1_0000_0000 == 0
  {
    now % 0x1_0000_0000
  }

  /** `timestamp.unwrap_or(timestamp_now)` */
  function SourceTimestamp(s: MstBuilderEntrySource, now: int): u32
  {
    match s.timestamp
    case Some(t) => t
    case None => NowAsU32(now)
  }

  // ---------------------------------------------------------------------------
  // Reading the contents

  /** A source's content: memory as it is; a file range is opened (a missing
      file is an I/O error), then exactly `size` bytes are read from `offset`
      (running out first is an unexpected end of file). Seeking past the end
      is allowed, and reading into an empty buffer always succeeds, so an
      empty range never fails once the file is open. */
  function ReadSource(s: MstBuilderEntrySource, fs: FileSystem): (r: Result<seq<u8>, Error>)
    ensures r.Ok? ==> |r.value| == SourceSize(s)
    ensures s.Memory? ==> r == Ok(s.data)
    ensures s.File? ==> (r == Err(Io) <==> s.path !in fs)
    ensures s.File? && s.path in fs ==>
              (r.Ok? <==> s.size == 0 || s.offset + s.size <= |fs[s.path]|)
    ensures s.File? && r.Ok? && 0 < s.size ==>
              s.offset + s.size <= |fs[s.path]| && r.value == fs[s.path][s.offset..s.offset + s.size]
  {
    match s
    case Memory(data, _) => Ok(data)
    case File(path, offset, size, _) =>
      if path !in fs then Err(Io)
      else if size == 0 then Ok([])
      else if offset + size > |fs[path]| then Err(UnexpectedEof)
      else Ok(fs[path][offset..offset + size])
  }

  /** Reading the sources in order, stopping at the first failure: the
      contents read so far, and the failure if there was one. */
  function ReadAll(sources: seq<MstBuilderEntrySource>, fs: FileSystem): (r: (seq<seq<u8>>, Option<Error>))
    decreases |sources|
  {
    if |sources| == 0 then ([], None)
    else
      var n := |sources| - 1;
      var (contents, failure) := ReadAll(sources[..n], fs);
      if failure.Some? then (contents, failure)
      else match ReadSource(sources[n], fs)
        case Ok(c) => (contents + [c], None)
        case Err(e) => (contents, Some(e))
  }

  /** `ReadAll` reads every source up to the first that fails and reports
      that source's error; it fails exactly when some source does. */
  lemma {:induction false} ReadAllFacts(sources: seq<MstBuilderEntrySource>, fs: FileSystem)
    ensures var (contents, failure) := ReadAll(sources, fs);
            |contents| <= |sources|
            && (forall i :: 0 <= i < |contents| ==> ReadSource(sources[i], fs) == Ok(contents[i]))
            && (failure.None? <==> |contents| == |sources|)
            && (failure.Some? ==> ReadSource(sources[|contents|], fs) == Err(failure.value))
    decreases |sources|
  {
    if sources != [] {
      var n := |sources| - 1;
      ReadAllFacts(sources[..n], fs);
    }
  }

  /** Once a prefix of the sources fails, reading more changes nothing. */
  lemma {:induction false} ReadAllStops(sources: seq<MstBuilderEntrySource>, fs: FileSystem, k: nat)
    requires k <= |sources| && ReadAll(sources[..k], fs).1.Some?
    ensures ReadAll(sources, fs) == ReadAll(sources[..k], fs)
    decreases |sources|
  {
    if k < |sources| {
      var n := |sources| - 1;
      assert sources[..n][..k] == sources[..k];
      ReadAllStops(sources[..n], fs, k);
    } else {
      assert sources[..k] == sources;
    }
  }

  /** Reading one more source after a prefix that was read without failure. */
  lemma {:induction false} ReadAllNext(sources: seq<MstBuilderEntrySource>, fs: FileSystem, i: nat)
    requires i < |sources| && ReadAll(sources[..i], fs).1.None?
    ensures var contents := ReadAll(sources[..i], fs).0;
            ReadAll(sources[..i + 1], fs)
            == match ReadSource(sources[i], fs)
               case Ok(c) => (contents + [c], None)
               case Err(e) => (contents, Some(e))
  {
    assert sources[..i + 1][..i] == sources[..i];
  }

  // ---------------------------------------------------------------------------
  // The collected sources

  /** `order` lists every key of `sources` exactly once: the iteration order
      of the `HashMap`, which both passes of `write` follow. */
  ghost predicate IsOrder(order: seq<Path>, sources: map<Path, MstBuilderEntrySource>)
  {
    (forall i, j :: 0 <= i < j < |order| ==> order[i] != order[j])
    && (forall p :: p in sources <==> p in order)
  }

  /** A duplicate-free enumeration has as many elements as the set it lists. */
  lemma {:induction false} DistinctCard(order: seq<Path>)
    requires forall i, j :: 0 <= i < j < |order| ==> order[i] != order[j]
    ensures |set p | p in order| == |order|
    decreases |order|
  {
    if order != [] {
      var n := |order| - 1;
      var init := order[..n];
      DistinctCard(init);
      assert (set p | p in order) == (set p | p in init) + {order[n]};
      assert order[n] !in (set p | p in init);
    }
  }

  /** The enumeration is as long as `entry_sources.len()`. */
  lemma {:induction false} OrderLength(order: seq<Path>, sources: map<Path, MstBuilderEntrySource>)
    requires IsOrder(order, sources)
    ensures |order| == |sources|
  {
    DistinctCard(order);
    assert (set p | p in order) == sources.Keys;
  }

  /** The sources in the enumeration's order. */
  function SourcesIn(order: seq<Path>, sources: map<Path, MstBuilderEntrySource>): (r: seq<MstBuilderEntrySource>)
    requires forall p :: p in order ==> p in sources
    ensures |r| == |order| && forall i :: 0 <= i < |order| ==> r[i] == sources[order[i]]
  {
    seq(|order|, i requires 0 <= i < |order| => sources[order[i]])
  }

  /** The sources after a series of `add_entry_memory` / `add_entry_file`
      calls: each insert replaces whatever the path held. */
  function Added(sources: map<Path, MstBuilderEntrySource>, adds: seq<(Path, MstBuilderEntrySource)>): map<Path, MstBuilderEntrySource>
    decreases |adds|
  {
    if adds == [] then sources
    else
      var n := |adds| - 1;
      Added(sources, adds[..n])[adds[n].0 := adds[n].1]
  }

  /** After a series of adds, a path has an entry exactly when it had one or
      was added. */
  lemma {:induction false} AddedKeys(sources: map<Path, MstBuilderEntrySource>, adds: seq<(Path, MstBuilderEntrySource)>, p: Path)
    ensures p in Added(sources, adds) <==> p in sources || exists i :: 0 <= i < |adds| && adds[i].0 == p
    decreases |adds|
  {
    if adds != [] {
      var n := |adds| - 1;
      AddedKeys(sources, adds[..n], p);
      if p != adds[n].0 {
        assert (exists i :: 0 <= i < |adds| && adds[i].0 == p) ==> exists i :: 0 <= i < n && adds[..n][i].0 == p;
      }
    }
  }

  /** The last add of a path decides its source. */
  lemma {:induction false} AddedLast(sources: map<Path, MstBuilderEntrySource>, adds: seq<(Path, MstBuilderEntrySource)>, i: nat)
    requires i < |adds| && forall j :: i < j < |adds| ==> adds[j].0 != adds[i].0
    ensures adds[i].0 in Added(sources, adds) && Added(sources, adds)[adds[i].0] == adds[i].1
    decreases |adds|
  {
    var n := |adds| - 1;
    if i < n {
      AddedLast(sources, adds[..n], i);
    }
  }

  /** A path never added keeps its old source. */
  lemma {:induction false} AddedUntouched(sources: map<Path, MstBuilderEntrySource>, adds: seq<(Path, MstBuilderEntrySource)>, p: Path)
    requires p in sources && forall i :: 0 <= i < |adds| ==> adds[i].0 != p
    ensures p in Added(sources, adds) && Added(sources, adds)[p] == sources[p]
    decreases |adds|
  {
    if adds != [] {
      var n := |adds| - 1;
      AddedUntouched(sources, adds[..n], p);
    }
  }

  // ---------------------------------------------------------------------------
  // create_entries / create_mst

  /** The width of the filename fields of a revision's live entries. */
  function CreatedWidth(t: Identity.MstVersionKnown): (w: nat)
    ensures w >= 1
  {
    if t.V180Ps2? then 20 else 16
  }

  /** The 1.8.0 entry `create_entries` makes for a source stored under `path`:
      the name cut to the field, flags, offset and crc zero. */
  function EntryFor(path: Path, s: MstBuilderEntrySource, width: nat, now: int): (e: EntryV180Variable)
    requires width >= 1
    ensures |e.filename| == width
  {
    EntryV180Variable(FilenameFromString(path, width), 0, 0, AsU32(SourceSize(s)), SourceTimestamp(s, now), 0)
  }

  function Ps2EntryFor(path: Path, s: MstBuilderEntrySource, now: int): CanonicalEntry
  {
    EntryFor(path, s, 20, now)
  }

  function V180EntryFor(path: Path, s: MstBuilderEntrySource, now: int): EntryV180N16
  {
    EntryFor(path, s, 16, now)
  }

  /** `create_entries`: one live entry per source in the enumeration's order,
      in the target revision's layout; the other three lists are empty. */
  function CreateEntries(t: Identity.MstVersionKnown, paths: seq<Path>, sources: seq<MstBuilderEntrySource>, now: int): (r: Entries)
    requires |paths| == |sources|
    ensures RevisionOf(r) == t
    ensures Counts(r) == (|paths|, 0, 0, 0)
  {
    var n := |paths|;
    match t
    case V180Ps2 =>
      var es: seq<CanonicalEntry> := seq(n, i requires 0 <= i < n => Ps2EntryFor(paths[i], sources[i], now));
      V180PS2(InnerEntries(es, [], [], []))
    case V180 =>
      var es: seq<EntryV180N16> := seq(n, i requires 0 <= i < n => V180EntryFor(paths[i], sources[i], now));
      V180(InnerEntries(es, [], [], []))
    case V170 =>
      V170(InnerEntries(seq(n, i requires 0 <= i < n =>
        EntryV170(FilenameFromString(paths[i], 16), 0, AsU32(SourceSize(sources[i])), SourceTimestamp(sources[i], now), 0)), [], [], []))
    case V160 =>
      V160(InnerEntries(seq(n, i requires 0 <= i < n =>
        EntryV160(FilenameFromString(paths[i], 16), 0, AsU32(SourceSize(sources[i])), SourceTimestamp(sources[i], now))), [], [], []))
  }

  /** In canonical form, entry `i` of a created table is the entry for source
      `i` under its path, named in the revision's width: the size is the
      source's size as a u32, the timestamp the source's or the clock's, and
      flags, offset and crc are zero. */
  lemma {:induction false} CreatedCanonical(t: Identity.MstVersionKnown, paths: seq<Path>, sources: seq<MstBuilderEntrySource>, now: int)
    requires |paths| == |sources|
    ensures var c := Canonical(CreateEntries(t, paths, sources, now));
            |c.entries| == |paths|
            && forall i :: 0 <= i < |paths| ==>
                 var e := EntryFor(paths[i], sources[i], CreatedWidth(t), now);
                 c.entries[i] == e.(filename := if t.V180Ps2? then e.filename else Widen(e.filename))
  {
  }

  /** Cutting a path to 20 bytes and narrowing the field is cutting it to 16. */
  lemma {:induction false} NarrowFilename(path: Path)
    ensures Narrow(FilenameFromString(path, 20)) == FilenameFromString(path, 16)
  {
    var a, b := Narrow(FilenameFromString(path, 20)), FilenameFromString(path, 16);
    forall k | 0 <= k < 16 ensures a[k] == b[k] {
    }
  }

  /** A table created for any other revision is the PS2 table converted to it:
      creating directly and converting agree entry for entry. */
  lemma {:induction false} CreatedAsConverted(t: Identity.MstVersionKnown, paths: seq<Path>, sources: seq<MstBuilderEntrySource>, now: int)
    requires |paths| == |sources| && !t.V180Ps2?
    ensures EntryTable.Convert(CreateEntries(Identity.V180Ps2, paths, sources, now), 1, Identity.KnownMinor(t), 0, false)
         == Ok(CreateEntries(t, paths, sources, now))
  {
    var ps2 := CreateEntries(Identity.V180Ps2, paths, sources, now);
    var r := EntryTable.Convert(ps2, 1, Identity.KnownMinor(t), 0, false);
    ConvertByRevision(ps2, 1, Identity.KnownMinor(t), 0, false);
    assert r == Ok(FromCanonicalAt(t, Canonical(ps2)));
    forall i | 0 <= i < |paths|
      ensures Narrow(FilenameFromString(paths[i], 20)) == FilenameFromString(paths[i], 16)
    {
      NarrowFilename(paths[i]);
    }
    var e := CreateEntries(t, paths, sources, now);
    match t
    case V180 => assert r.value.v180Inner.entries == e.v180Inner.entries;
    case V170 => assert r.value.v170Inner.entries == e.v170Inner.entries;
    case V160 => assert r.value.v160Inner.entries == e.v160Inner.entries;
  }

  /** The header `create_mst` writes first: the entry count and the
      compilers; size and data offset are patched in later. */
  function CreateHeader(count: nat, compilers: MstCompilers): MstHeader
  {
    MstHeader(0, AsU32(count), 0, 0, 0, 0, compilers, [0, 0, 0, 0, 0, 0, 0, 0, 0])
  }

  /** A created table always passes the write assert for the version
      `create_mst` pairs it with, and the header carries its counts when
      there are fewer than 2^32 entries. */
  lemma {:induction false} CreatedMatches(t: Identity.MstVersionKnown, p: Identity.MstPlatformKnown, paths: seq<Path>,
                       sources: seq<MstBuilderEntrySource>, now: int, compilers: MstCompilers)
    requires |paths| == |sources|
    ensures MatchesVersion(CreateEntries(t, paths, sources, now), Identity.VersionFromKnown(t, p))
    ensures |paths| < 0x1_0000_0000 ==>
              Counts(CreateEntries(t, paths, sources, now)) == HeaderCounts(CreateHeader(|paths|, compilers))
  {
  }

  /** An archive whose table passes the write assert, written into an empty
      output: the output holds the archive, and the recorded offset field
      sites are the live rows' ones, counted from the start. */
  method WriteIntoEmpty(w: Stream, id: Identity.MstIdentifier, v: Identity.MstVersion, h: MstHeader, e: Entries)
    returns (sites: seq<nat>)
    requires w.data == [] && w.pos == 0 && MatchesVersion(e, v)
    modifies w
    ensures w.data == ArchiveBytes(id, v, h, TableBytes(e, Identity.IsLittle(id))) && w.pos == |w.data|
    ensures sites == RowSites(TABLE_AT, LiveRows(e, Identity.IsLittle(id)))
  {
    var recorded := WriteArchive(w, id, v, h, e, []);
    AppendToEmpty(RowSites(TABLE_AT, LiveRows(e, Identity.IsLittle(id))));
    AppendToEmpty(ArchiveBytes(id, v, h, TableBytes(e, Identity.IsLittle(id))));
    sites := recorded.value;
  }

  // ---------------------------------------------------------------------------
  // The steps of `write`

  /** One pass of the loop over the sources in `write`: pad the output with
      zeros to the next multiple of 2048 when it is not aligned, read the
      source, and, when that succeeds, write its bytes at the aligned
      position, which is returned. */
  method WriteBlock(w: Stream, s: MstBuilderEntrySource, fs: FileSystem)
    returns (pos: nat, content: Result<seq<u8>, Error>)
    requires w.pos == |w.data|
    modifies w
    ensures content == ReadSource(s, fs)
    ensures pos == |old(w.data)| + Padding(|old(w.data)|) && w.pos == |w.data|
    ensures content.Ok? ==> w.data == old(w.data) + Zeros(Padding(|old(w.data)|)) + content.value
    ensures content.Err? ==> w.data == old(w.data) + Zeros(Padding(|old(w.data)|))
  {
    pos := w.StreamPosition();
    if pos % 2048 > 0 {
      var padding := 2048 - pos % 2048;
      OverwriteAtEnd(w.data, Zeros(padding));
      w.WriteAll(Zeros(padding));
      pos := w.StreamPosition();
    } else {
      assert old(w.data) + Zeros(0) == old(w.data);
    }
    content := ReadSource(s, fs);
    if content.Ok? {
      OverwriteAtEnd(w.data, content.value);
      w.WriteAll(content.value);
    }
  }

  /** The loop over the sources in `write`: each block is aligned to 2048
      bytes and its offset recorded. The first source that cannot be read
      ends the loop with its error, after its padding. */
  method WriteContents(w: Stream, sources: seq<MstBuilderEntrySource>, fs: FileSystem, ghost table: seq<u8>)
    returns (offsets: seq<nat>, failure: Option<Error>)
    requires w.data == table && w.pos == |table|
    modifies w
    ensures w.pos == |w.data|
    ensures failure == ReadAll(sources, fs).1
    ensures failure.None? ==> w.data == table + Placed(|table|, ReadAll(sources, fs).0)
                              && offsets == Offsets(|table|, ReadAll(sources, fs).0)
    ensures failure.Some? ==> var placed := table + Placed(|table|, ReadAll(sources, fs).0);
                              w.data == placed + Zeros(Padding(|placed|))
  {
    ghost var blocks: seq<seq<u8>> := [];
    offsets := [];
    var i := 0;
    while i < |sources|
      invariant 0 <= i <= |sources|
      invariant w.pos == |w.data|
      invariant ReadAll(sources[..i], fs) == (blocks, None)
      invariant w.data == table + Placed(|table|, blocks)
      invariant offsets == Offsets(|table|, blocks)
    {
      var pos, content := WriteBlock(w, sources[i], fs);
      ReadAllNext(sources, fs, i);
      if content.Err? {
        ReadAllStops(sources, fs, i + 1);
        assert ReadAll(sources, fs) == (blocks, Some(content.error));
        return [], Some(content.error);
      }
      AppendBlock(table, blocks, content.value);
      offsets := offsets + [pos];
      blocks := blocks + [content.value];
      i := i + 1;
    }
    assert sources[..i] == sources;
    failure := None;
  }

  // ---------------------------------------------------------------------------
  // The builder

  /** `MstBuilder`: the target platform and revision, the compilers to record,
      and the sources collected so far, by entry path. */
  class MstBuilder {
    var platform: Identity.MstPlatformKnown
    var version: Identity.MstVersionKnown
    var compilers: MstCompilers
    var entrySources: map<Path, MstBuilderEntrySource>

    /** `MstBuilder::new`: no sources yet. */
    constructor (version: Identity.MstVersionKnown, platform: Identity.MstPlatformKnown, compilers: MstCompilers)
      ensures this.platform == platform && this.version == version && this.compilers == compilers
      ensures entrySources == map[]
    {
      this.platform := platform;
      this.version := version;
      this.compilers := compilers;
      entrySources := map[];
    }

    /** `from_mst_empty`: the platform and the revision come from the archive's
        version word (their conversions are parameters: `try_from` is not part
        of this model, and the platform's is tried first), the compilers from
        its header; no sources. */
    static method FromMstEmpty(mst: Mst, platform: Result<Identity.MstPlatformKnown, Error>,
                               version: Result<Identity.MstVersionKnown, Error>)
      returns (r: Result<MstBuilder, Error>)
      ensures platform.Err? ==> r == Err(platform.error)
      ensures platform.Ok? && version.Err? ==> r == Err(version.error)
      ensures platform.Ok? && version.Ok? ==>
                r.Ok? && fresh(r.value)
                && r.value.platform == platform.value && r.value.version == version.value
                && r.value.compilers == mst.body.header.compilers && r.value.entrySources == map[]
    {
      if platform.Err? {
        return Err(platform.error);
      }
      if version.Err? {
        return Err(version.error);
      }
      var b := new MstBuilder(version.value, platform.value, mst.body.header.compilers);
      return Ok(b);
    }

    /** `set_version`: only the target revision changes. */
    method SetVersion(version: Identity.MstVersionKnown)
      modifies this
      ensures this.version == version
      ensures platform == old(platform) && compilers == old(compilers) && entrySources == old(entrySources)
    {
      this.version := version;
    }

    /** `has_entry` */
    predicate HasEntry(path: Path)
      reads this
    {
      path in entrySources
    }

    /** `add_entry_memory`: the path now holds the data (replacing any earlier
        source under it); every other path keeps its source. */
    method AddEntryMemory(path: Path, data: seq<u8>, timestamp: Option<u32>)
      modifies this
      ensures entrySources == old(entrySources)[path := Memory(data, timestamp)]
      ensures HasEntry(path) && forall p :: p != path ==> (HasEntry(p) <==> old(HasEntry(p)))
      ensures platform == old(platform) && version == old(version) && compilers == old(compilers)
    {
      entrySources := entrySources[path := Memory(data, timestamp)];
    }

    /** `add_entry_file`: the path now holds the file range (replacing any
        earlier source under it); every other path keeps its source. */
    method AddEntryFile(entryPath: Path, filePath: Path, offset: nat, size: nat, timestamp: Option<u32>)
      modifies this
      ensures entrySources == old(entrySources)[entryPath := File(filePath, offset, size, timestamp)]
      ensures HasEntry(entryPath) && forall p :: p != entryPath ==> (HasEntry(p) <==> old(HasEntry(p)))
      ensures platform == old(platform) && version == old(version) && compilers == old(compilers)
    {
      entrySources := entrySources[entryPath := File(filePath, offset, size, timestamp)];
    }

    /** Whether the archive is little-endian: decided by the platform. */
    function Little(): bool
      reads this
    {
      Identity.IsLittle(Identity.IdentifierFromKnown(platform))
    }

    /** The table `create_entries` makes when the sources are enumerated in
        `order` and the clock reads `now`. */
    function Created(order: seq<Path>, now: int): (e: Entries)
      reads this
      requires forall p :: p in order ==> p in entrySources
      ensures RevisionOf(e) == version && Counts(e) == (|order|, 0, 0, 0)
    {
      CreateEntries(version, order, SourcesIn(order, entrySources), now)
    }

    /** The archive `create_mst` makes, as binrw writes it. */
    function CreatedBytes(order: seq<Path>, now: int): (b: seq<u8>)
      reads this
      requires forall p :: p in order ==> p in entrySources
      ensures |b| >= TABLE_AT
    {
      ArchiveBytes(Identity.IdentifierFromKnown(platform), Identity.VersionFromKnown(version, platform),
                   CreateHeader(|entrySources|, compilers), TableBytes(Created(order, now), Little()))
    }

    /** Where writing the created archive records the live entries' offset
        fields: one per source, past the header and inside the archive. */
    function CreatedSites(order: seq<Path>, now: int): (sites: seq<nat>)
      reads this
      requires forall p :: p in order ==> p in entrySources
      ensures |sites| == |order|
      ensures forall j :: 0 <= j < |sites| ==> TABLE_AT <= sites[j] && sites[j] + 4 <= |CreatedBytes(order, now)|
    {
      var rows := LiveRows(Created(order, now), Little());
      RowSitesFacts(TABLE_AT, rows, Little());
      RowSites(TABLE_AT, rows)
    }

    /** The recorded sites are four bytes apart at least. */
    lemma CreatedSitesSpaced(order: seq<Path>, now: int)
      requires forall p :: p in order ==> p in entrySources
      ensures Spaced(CreatedSites(order, now))
    {
      RowSitesFacts(TABLE_AT, LiveRows(Created(order, now), Little()), Little());
    }

    /** `create_mst`: the platform's identifier, the version word for the
        revision on the platform, a header carrying the number of sources and
        the compilers, and the created table. */
    method CreateMst(order: seq<Path>, now: int) returns (m: Mst)
      requires forall p :: p in order ==> p in entrySources
      ensures fresh(m) && fresh(m.body)
      ensures m.identifier == Identity.IdentifierFromKnown(platform)
      ensures m.body.version == Identity.VersionFromKnown(version, platform)
      ensures m.body.header == CreateHeader(|entrySources|, compilers)
      ensures m.body.entries == Created(order, now)
    {
      var identifier := Identity.IdentifierFromKnown(platform);
      var v := Identity.VersionFromKnown(version, platform);
      var entries := CreateEntries(version, order, SourcesIn(order, entrySources), now);
      var body := new MstBody(v, CreateHeader(|entrySources|, compilers), entries);
      m := new Mst(identifier, body);
    }

    /** `write` into an empty output: the created archive, then every source's
        content, each aligned to 2048 bytes, then the file size, the data
        offset and each entry's offset patched in. When a source cannot be
        read, the error is returned and the output holds what was written
        before it. */
    method Write(w: Stream, order: seq<Path>, fs: FileSystem, now: int) returns (r: Outcome<Error>)
      requires w.data == [] && w.pos == 0 && IsOrder(order, entrySources)
      modifies w
      ensures var (contents, failure) := ReadAll(SourcesIn(order, entrySources), fs);
              var table := CreatedBytes(order, now);
              var placed := table + Placed(|table|, contents);
              if failure.None? then
                r == Pass && |contents| == |order|
                && w.data == BuiltImage(table, contents, CreatedSites(order, now), Little())
              else
                r == Fail(failure.value) && w.data == placed + Zeros(Padding(|placed|))
    {
      var sites := WriteCreated(w, order, now);
      ghost var table := w.data;
      ghost var contents := ReadAll(SourcesIn(order, entrySources), fs).0;
      ReadAllFacts(SourcesIn(order, entrySources), fs);
      OrderLength(order, entrySources);
      var offsets, failed := WriteContents(w, SourcesIn(order, entrySources), fs, table);
      if failed.Some? {
        return Fail(failed.value);
      }
      var little := Little();
      FinishImage(w, sites, offsets, little, table, contents);
      WrittenIsBuilt(table, contents, sites, little);
      r := Pass;
    }

    /** The first step of `write`: the archive `create_mst` makes, written
        into the empty output, with the sites of the offset fields recorded. */
    method WriteCreated(w: Stream, order: seq<Path>, now: int) returns (sites: seq<nat>)
      requires w.data == [] && w.pos == 0 && forall p :: p in order ==> p in entrySources
      modifies w
      ensures w.data == CreatedBytes(order, now) && w.pos == |w.data|
      ensures sites == CreatedSites(order, now)
    {
      var mst := CreateMst(order, now);
      var id, v, h, e := mst.identifier, mst.body.version, mst.body.header, mst.body.entries;
      CreatedMatches(version, platform, order, SourcesIn(order, entrySources), now, compilers);
      assert ArchiveBytes(id, v, h, TableBytes(e, Identity.IsLittle(id))) == CreatedBytes(order, now);
      assert RowSites(TABLE_AT, LiveRows(e, Identity.IsLittle(id))) == CreatedSites(order, now);
      sites := WriteIntoEmpty(w, id, v, h, e);
    }
  }
}
