/** Table entries of the four revisions, their filenames, their canonical
    conversions and their stored layout (fang/src/mst/entry.rs). */
module Entry {
  import opened Bytes
  import opened Wrappers
  import opened Io
  import Util

  type Name16 = s: seq<u8> | |s| == 16 witness [0, 0, 0, 0, 0, 0, 0, 0, 0, 0, 0, 0, 0, 0, 0, 0]
  type Name20 = s: seq<u8> | |s| == 20 witness [0, 0, 0, 0, 0, 0, 0, 0, 0, 0, 0, 0, 0, 0, 0, 0, 0, 0, 0, 0]

  // ---------------------------------------------------------------------------
  // Filename<T>: a fixed-width, zero-padded name field

  /** `Filename::is_empty` */
  predicate IsEmpty(f: seq<u8>)
  {
    |f| == 0 || f[0] == 0
  }

  /** `Filename::to_string`: the bytes before the first zero byte. */
  function FilenameToString(f: seq<u8>): (s: seq<u8>)
    ensures |s| <= |f| && s == f[..|s|] && Util.NoNul(s)
    ensures |s| < |f| ==> f[|s|] == 0
  {
    f[..Util.NulIndex(f)]
  }

  /** An empty filename is exactly one whose text is empty. */
  lemma IsEmptyIff(f: seq<u8>)
    ensures IsEmpty(f) <==> FilenameToString(f) == []
  {
  }

  function Min(a: nat, b: nat): nat
  {
    if a < b then a else b
  }

  /** `Filename::<T>::from(&String)`: at most `T - 1` bytes of the text, then
      zeros, so the field always ends in a zero byte. The text is taken as
      ASCII, so the cut never falls inside a character. */
  function FilenameFromString(s: seq<u8>, width: nat): (f: seq<u8>)
    requires width >= 1
    ensures |f| == width && f[width - 1] == 0
    ensures f[..Min(width - 1, |s|)] == s[..Min(width - 1, |s|)]
    ensures forall i :: Min(width - 1, |s|) <= i < width ==> f[i] == 0
  {
    var n := Min(width - 1, |s|);
    s[..n] + Zeros(width - n)
  }

  /** A NUL-free text comes back from its filename field cut to `T - 1` bytes. */
  lemma FilenameTextRoundTrip(s: seq<u8>, width: nat)
    requires width >= 1 && Util.NoNul(s)
    ensures FilenameToString(FilenameFromString(s, width)) == s[..Min(width - 1, |s|)]
  {
    var f := FilenameFromString(s, width);
    var n := Min(width - 1, |s|);
    assert f[..n] == s[..n];
    Util.NulIndexAt(f, n);
  }

  /** `Filename<20>::from(Filename<16>)`: the 16 bytes, then four zeros. */
  function Widen(f: Name16): (g: Name20)
    ensures g[..16] == f && g[16..] == [0, 0, 0, 0]
  {
    f + [0, 0, 0, 0]
  }

  /** `Filename<16>::from(Filename<20>)`: the first 15 bytes, then a zero. */
  function Narrow(g: Name20): (f: Name16)
    ensures f[..15] == g[..15] && f[15] == 0
  {
    g[..15] + [0]
  }

  /** Widening then narrowing zeroes byte 15 and keeps the rest, so it loses
      something exactly when the 16-byte name had no terminator. */
  lemma NarrowWiden(f: Name16)
    ensures Narrow(Widen(f)) == f[..15] + [0]
    ensures Narrow(Widen(f)) == f <==> f[15] == 0
  {
    if f[15] == 0 {
      assert f == f[..15] + [0];
    }
  }

  /** Widening keeps the text of a name. */
  lemma WidenKeepsText(f: Name16)
    ensures FilenameToString(Widen(f)) == FilenameToString(f)
  {
    var s := FilenameToString(f);
    Util.NulIndexAt(Widen(f), |s|);
  }

  /** Narrowing keeps at most the first 15 bytes of a name's text. */
  lemma NarrowText(g: Name20)
    ensures var s := FilenameToString(g);
            FilenameToString(Narrow(g)) == s[..Min(15, |s|)]
  {
    var s := FilenameToString(g);
    var f := Narrow(g);
    var n := Min(15, |s|);
    assert f[..n] == s[..n];
    Util.NulIndexAt(f, n);
  }

  // ---------------------------------------------------------------------------
  // Entry layouts

  /** `EntryV180Variable<FNL>`; its width is the length of `filename`. */
  datatype EntryV180Variable = EntryV180Variable(
    filename: seq<u8>, flags: u16, offset: u32, size: u32, timestamp: u32, crc: u32)

  /** `EntryV180Variable<16>`, the 1.8.0 entry. */
  type EntryV180N16 = e: EntryV180Variable | |e.filename| == 16
    witness EntryV180Variable([0, 0, 0, 0, 0, 0, 0, 0, 0, 0, 0, 0, 0, 0, 0, 0], 0, 0, 0, 0, 0)

  /** `EntryV180Variable<20>`: the 1.8.0 PS2 entry, and the canonical entry. */
  type CanonicalEntry = e: EntryV180Variable | |e.filename| == 20
    witness EntryV180Variable([0, 0, 0, 0, 0, 0, 0, 0, 0, 0, 0, 0, 0, 0, 0, 0, 0, 0, 0, 0], 0, 0, 0, 0, 0)

  datatype EntryV170 = EntryV170(filename: Name16, offset: u32, size: u32, timestamp: u32, crc: u32)

  datatype EntryV160 = EntryV160(filename: Name16, offset: u32, size: u32, timestamp: u32)

  /** `SupportEntryVariable<FNL>`: a name and a timestamp, no content. */
  datatype SupportEntryVariable = SupportEntryVariable(filename: seq<u8>, timestamp: u32)

  type SupportEntryN16 = s: SupportEntryVariable | |s.filename| == 16
    witness SupportEntryVariable([0, 0, 0, 0, 0, 0, 0, 0, 0, 0, 0, 0, 0, 0, 0, 0], 0)

  type CanonicalSupportEntry = s: SupportEntryVariable | |s.filename| == 20
    witness SupportEntryVariable([0, 0, 0, 0, 0, 0, 0, 0, 0, 0, 0, 0, 0, 0, 0, 0, 0, 0, 0, 0], 0)

  // ---------------------------------------------------------------------------
  // Canonical conversions (the `From` impls)

  function V180ToCanonical(e: EntryV180N16): CanonicalEntry
  {
    EntryV180Variable(Widen(e.filename), e.flags, e.offset, e.size, e.timestamp, e.crc)
  }

  function V180FromCanonical(c: CanonicalEntry): EntryV180N16
  {
    EntryV180Variable(Narrow(c.filename), c.flags, c.offset, c.size, c.timestamp, c.crc)
  }

  function V170ToCanonical(e: EntryV170): CanonicalEntry
  {
    EntryV180Variable(Widen(e.filename), 0, e.offset, e.size, e.timestamp, e.crc)
  }

  function V170FromCanonical(c: CanonicalEntry): EntryV170
  {
    EntryV170(Narrow(c.filename), c.offset, c.size, c.timestamp, c.crc)
  }

  function V160ToCanonical(e: EntryV160): CanonicalEntry
  {
    EntryV180Variable(Widen(e.filename), 0, e.offset, e.size, e.timestamp, 0)
  }

  function V160FromCanonical(c: CanonicalEntry): EntryV160
  {
    EntryV160(Narrow(c.filename), c.offset, c.size, c.timestamp)
  }

  function SupportToCanonical(s: SupportEntryN16): CanonicalSupportEntry
  {
    SupportEntryVariable(Widen(s.filename), s.timestamp)
  }

  function SupportFromCanonical(c: CanonicalSupportEntry): SupportEntryN16
  {
    SupportEntryVariable(Narrow(c.filename), c.timestamp)
  }

  /** What a canonical entry keeps after a trip through a narrower layout:
      names lose byte 15 and more, flags survive only in 1.8.0, crc from 1.7.0. */
  function ProjectEntry(c: CanonicalEntry, wide: bool, hasFlags: bool, hasCrc: bool): CanonicalEntry
  {
    EntryV180Variable(
      if wide then c.filename else Widen(Narrow(c.filename)),
      if hasFlags then c.flags else 0,
      c.offset, c.size, c.timestamp,
      if hasCrc then c.crc else 0)
  }

  /** A 1.8.0 entry survives the canonical round trip but for byte 15 of its
      name; a canonical entry comes back with its name cut to 15 bytes. */
  lemma V180Conversions(e: EntryV180N16, c: CanonicalEntry)
    ensures V180FromCanonical(V180ToCanonical(e)) == e.(filename := Narrow(Widen(e.filename)))
    ensures V180ToCanonical(V180FromCanonical(c)) == ProjectEntry(c, false, true, true)
  {
  }

  /** A 1.7.0 entry has no flags: they read as 0 in canonical form and are
      dropped on the way back; crc, offset, size and timestamp survive. */
  lemma V170Conversions(e: EntryV170, c: CanonicalEntry)
    ensures V170ToCanonical(e).flags == 0
    ensures V170FromCanonical(V170ToCanonical(e)) == e.(filename := Narrow(Widen(e.filename)))
    ensures V170ToCanonical(V170FromCanonical(c)) == ProjectEntry(c, false, false, true)
  {
  }

  /** A 1.6.0 entry has neither flags nor crc: both read as 0 and are dropped
      on the way back; offset, size and timestamp survive. */
  lemma V160Conversions(e: EntryV160, c: CanonicalEntry)
    ensures V160ToCanonical(e).flags == 0 && V160ToCanonical(e).crc == 0
    ensures V160FromCanonical(V160ToCanonical(e)) == e.(filename := Narrow(Widen(e.filename)))
    ensures V160ToCanonical(V160FromCanonical(c)) == ProjectEntry(c, false, false, false)
  {
  }

  /** Support entries keep their timestamp both ways. */
  lemma SupportConversions(s: SupportEntryN16, c: CanonicalSupportEntry)
    ensures SupportToCanonical(s).timestamp == s.timestamp
    ensures SupportFromCanonical(c).timestamp == c.timestamp
    ensures SupportFromCanonical(SupportToCanonical(s)) == s.(filename := Narrow(Widen(s.filename)))
  {
  }

  // ---------------------------------------------------------------------------
  // Stored layout

  /** A stored entry: the fields before the offset, the offset, the fields after it. */
  datatype Row = Row(head: seq<u8>, offset: u32, tail: seq<u8>)

  function RowBytes(r: Row, little: bool): (b: seq<u8>)
    ensures |b| == |r.head| + 4 + |r.tail|
  {
    r.head + U32Bytes(r.offset, little) + r.tail
  }

  /** filename, flags (u16), two bytes of padding, offset, size, timestamp, crc */
  function V180Row(e: EntryV180Variable, little: bool): (r: Row)
    ensures |r.head| == |e.filename| + 4 && |r.tail| == 12
  {
    Row(e.filename + U16Bytes(e.flags, little) + [0, 0],
        e.offset,
        U32Bytes(e.size, little) + U32Bytes(e.timestamp, little) + U32Bytes(e.crc, little))
  }

  /** filename, offset, size, timestamp, crc */
  function V170Row(e: EntryV170, little: bool): (r: Row)
    ensures |r.head| == 16 && |r.tail| == 12
  {
    Row(e.filename, e.offset,
        U32Bytes(e.size, little) + U32Bytes(e.timestamp, little) + U32Bytes(e.crc, little))
  }

  /** filename, offset, size, timestamp */
  function V160Row(e: EntryV160, little: bool): (r: Row)
    ensures |r.head| == 16 && |r.tail| == 8
  {
    Row(e.filename, e.offset, U32Bytes(e.size, little) + U32Bytes(e.timestamp, little))
  }

  function SupportBytes(s: SupportEntryVariable, little: bool): (b: seq<u8>)
    ensures |b| == |s.filename| + 4
  {
    s.filename + U32Bytes(s.timestamp, little)
  }

  /** Reads a 1.8.0 entry of name width `width`; the two padding bytes are skipped. */
  function ReadV180(b: seq<u8>, width: nat, little: bool): (e: EntryV180Variable)
    requires |b| == width + 20
    ensures |e.filename| == width
  {
    EntryV180Variable(b[..width], ReadU16(b[width..width + 2], little),
                      ReadU32(b[width + 4..width + 8], little), ReadU32(b[width + 8..width + 12], little),
                      ReadU32(b[width + 12..width + 16], little), ReadU32(b[width + 16..width + 20], little))
  }

  function ReadV170(b: seq<u8>, little: bool): EntryV170
    requires |b| == 32
  {
    EntryV170(b[..16], ReadU32(b[16..20], little), ReadU32(b[20..24], little),
              ReadU32(b[24..28], little), ReadU32(b[28..32], little))
  }

  function ReadV160(b: seq<u8>, little: bool): EntryV160
    requires |b| == 28
  {
    EntryV160(b[..16], ReadU32(b[16..20], little), ReadU32(b[20..24], little), ReadU32(b[24..28], little))
  }

  function ReadSupport(b: seq<u8>, width: nat, little: bool): (s: SupportEntryVariable)
    requires |b| == width + 4
    ensures |s.filename| == width
  {
    SupportEntryVariable(b[..width], ReadU32(b[width..], little))
  }

  lemma V180RoundTrip(e: EntryV180Variable, little: bool)
    ensures ReadV180(RowBytes(V180Row(e, little), little), |e.filename|, little) == e
  {
    var w := |e.filename|;
    var b := RowBytes(V180Row(e, little), little);
    assert b[w..w + 2] == U16Bytes(e.flags, little);
    assert b[w + 4..w + 8] == U32Bytes(e.offset, little);
    assert b[w + 8..w + 12] == U32Bytes(e.size, little);
    assert b[w + 12..w + 16] == U32Bytes(e.timestamp, little);
    assert b[w + 16..w + 20] == U32Bytes(e.crc, little);
    U16RoundTrip(e.flags, little);
    U32RoundTrip(e.offset, little);
    U32RoundTrip(e.size, little);
    U32RoundTrip(e.timestamp, little);
    U32RoundTrip(e.crc, little);
  }

  /** A stored 1.8.0 entry is rewritten byte for byte exactly when its two
      padding bytes are zero: reading skips them and writing emits zeros. */
  lemma V180Rewrite(b: seq<u8>, width: nat, little: bool)
    requires |b| == width + 20
    ensures RowBytes(V180Row(ReadV180(b, width, little), little), little) == b
            <==> b[width + 2] == 0 && b[width + 3] == 0
  {
    var e := ReadV180(b, width, little);
    V180Layout(e, little);
    if b[width + 2] == 0 && b[width + 3] == 0 {
      var flags, o := b[width..width + 2], b[width + 4..width + 8];
      var sz, t, c := b[width + 8..width + 12], b[width + 12..width + 16], b[width + 16..width + 20];
      U16BytesOfRead(flags, little);
      U32BytesOfRead(o, little);
      U32BytesOfRead(sz, little);
      U32BytesOfRead(t, little);
      U32BytesOfRead(c, little);
      V180Slices(b, width);
    }
  }

  /** A 1.8.0 record with zero padding, cut at its field boundaries. */
  lemma V180Slices(b: seq<u8>, width: nat)
    requires |b| == width + 20 && b[width + 2] == 0 && b[width + 3] == 0
    ensures b == b[..width] + b[width..width + 2] + [0, 0] + b[width + 4..width + 8]
                 + b[width + 8..width + 12] + b[width + 12..width + 16] + b[width + 16..width + 20]
  {
    assert b[width + 2..width + 4] == [0, 0];
  }

  /** The bytes of a stored 1.8.0 entry, field by field. */
  lemma V180Layout(e: EntryV180Variable, little: bool)
    ensures RowBytes(V180Row(e, little), little)
         == e.filename + U16Bytes(e.flags, little) + [0, 0] + U32Bytes(e.offset, little)
            + U32Bytes(e.size, little) + U32Bytes(e.timestamp, little) + U32Bytes(e.crc, little)
  {
  }

  lemma V170RoundTrip(e: EntryV170, little: bool)
    ensures ReadV170(RowBytes(V170Row(e, little), little), little) == e
  {
    var b := RowBytes(V170Row(e, little), little);
    assert b[16..20] == U32Bytes(e.offset, little);
    assert b[20..24] == U32Bytes(e.size, little);
    assert b[24..28] == U32Bytes(e.timestamp, little);
    assert b[28..32] == U32Bytes(e.crc, little);
    U32RoundTrip(e.offset, little);
    U32RoundTrip(e.size, little);
    U32RoundTrip(e.timestamp, little);
    U32RoundTrip(e.crc, little);
  }

  lemma V170Rewrite(b: seq<u8>, little: bool)
    requires |b| == 32
    ensures RowBytes(V170Row(ReadV170(b, little), little), little) == b
  {
    U32BytesOfRead(b[16..20], little);
    U32BytesOfRead(b[20..24], little);
    U32BytesOfRead(b[24..28], little);
    U32BytesOfRead(b[28..32], little);
    assert b == b[..16] + b[16..20] + b[20..24] + b[24..28] + b[28..32];
  }

  lemma V160RoundTrip(e: EntryV160, little: bool)
    ensures ReadV160(RowBytes(V160Row(e, little), little), little) == e
  {
    var b := RowBytes(V160Row(e, little), little);
    assert b[16..20] == U32Bytes(e.offset, little);
    assert b[20..24] == U32Bytes(e.size, little);
    assert b[24..28] == U32Bytes(e.timestamp, little);
    U32RoundTrip(e.offset, little);
    U32RoundTrip(e.size, little);
    U32RoundTrip(e.timestamp, little);
  }

  lemma V160Rewrite(b: seq<u8>, little: bool)
    requires |b| == 28
    ensures RowBytes(V160Row(ReadV160(b, little), little), little) == b
  {
    U32BytesOfRead(b[16..20], little);
    U32BytesOfRead(b[20..24], little);
    U32BytesOfRead(b[24..28], little);
    assert b == b[..16] + b[16..20] + b[20..24] + b[24..28];
  }

  lemma SupportRoundTrip(s: SupportEntryVariable, little: bool)
    ensures ReadSupport(SupportBytes(s, little), |s.filename|, little) == s
  {
    var w := |s.filename|;
    assert SupportBytes(s, little)[w..] == U32Bytes(s.timestamp, little);
    U32RoundTrip(s.timestamp, little);
  }

  lemma SupportRewrite(b: seq<u8>, width: nat, little: bool)
    requires |b| == width + 4
    ensures SupportBytes(ReadSupport(b, width, little), little) == b
  {
    U32BytesOfRead(b[width..], little);
    assert b == b[..width] + b[width..];
  }

  // ---------------------------------------------------------------------------
  // Writing with offset recording

  /** `record_entry_offset`: with `Some(list)`, appends the position the offset
      field is about to be written at; with `None` records nothing. The value
      itself is written unchanged either way. */
  method RecordEntryOffset(w: Stream, value: u32, little: bool, entryOffsets: Option<seq<nat>>)
    returns (entryOffsets': Option<seq<nat>>)
    modifies w
    ensures entryOffsets' == if entryOffsets.Some? then Some(entryOffsets.value + [old(w.pos)]) else None
    ensures w.data == Overwrite(old(w.data), old(w.pos), U32Bytes(value, little))
    ensures w.pos == old(w.pos) + 4
  {
    entryOffsets' := entryOffsets;
    if entryOffsets.Some? {
      var pos := w.StreamPosition();
      entryOffsets' := Some(entryOffsets.value + [pos]);
    }
    w.WriteAll(U32Bytes(value, little));
  }

  /** Writes one stored entry at the end of the output, passing the offset field
      through `RecordEntryOffset`. */
  method WriteRow(w: Stream, row: Row, little: bool, entryOffsets: Option<seq<nat>>)
    returns (entryOffsets': Option<seq<nat>>)
    requires w.pos == |w.data|
    modifies w
    ensures w.pos == |w.data|
    ensures w.data == old(w.data) + RowBytes(row, little)
    ensures entryOffsets' ==
            if entryOffsets.Some? then Some(entryOffsets.value + [old(w.pos) + |row.head|]) else None
  {
    ghost var d := w.data;
    var field := U32Bytes(row.offset, little);
    OverwriteAtEnd(w.data, row.head);
    w.WriteAll(row.head);
    OverwriteAtEnd(w.data, field);
    entryOffsets' := RecordEntryOffset(w, row.offset, little, entryOffsets);
    OverwriteAtEnd(w.data, row.tail);
    w.WriteAll(row.tail);
    assert w.data == d + row.head + field + row.tail;
  }
}
