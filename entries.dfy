/** The entry table: four counted lists in one of four revisions, their
    canonical view, how a revision is chosen when reading and checked when
    writing, and `Entries::convert` (fang/src/mst/entries.rs). */
module EntryTable {
  import opened Bytes
  import opened Wrappers
  import opened Errors
  import opened Io
  import opened Entry
  import opened Header
  import Identity

  /** `InnerEntries<E, S>`: live entries, free entries, support entries and free
      support entries, stored in that order. */
  datatype InnerEntries<E, S> = InnerEntries(
    entries: seq<E>, freeEntries: seq<E>, supportEntries: seq<S>, freeSupportEntries: seq<S>)

  type CanonicalInnerEntries = InnerEntries<CanonicalEntry, CanonicalSupportEntry>

  function MapSeq<A, B>(s: seq<A>, f: A -> B): (r: seq<B>)
    ensures |r| == |s| && forall i :: 0 <= i < |s| ==> r[i] == f(s[i])
  {
    seq(|s|, i requires 0 <= i < |s| => f(s[i]))
  }

  /** `into_canonical`: the four lists mapped element by element. */
  function IntoCanonical<E, S>(inner: InnerEntries<E, S>, e2c: E -> CanonicalEntry,
                               s2c: S -> CanonicalSupportEntry): CanonicalInnerEntries
  {
    InnerEntries(MapSeq(inner.entries, e2c), MapSeq(inner.freeEntries, e2c),
                 MapSeq(inner.supportEntries, s2c), MapSeq(inner.freeSupportEntries, s2c))
  }

  /** `from_canonical`: the four lists mapped element by element. */
  function FromCanonical<E, S>(c: CanonicalInnerEntries, c2e: CanonicalEntry -> E,
                               c2s: CanonicalSupportEntry -> S): InnerEntries<E, S>
  {
    InnerEntries(MapSeq(c.entries, c2e), MapSeq(c.freeEntries, c2e),
                 MapSeq(c.supportEntries, c2s), MapSeq(c.freeSupportEntries, c2s))
  }

  /** Both maps keep the four lengths and the order of every list. */
  lemma PivotShape<E, S>(inner: InnerEntries<E, S>, e2c: E -> CanonicalEntry, s2c: S -> CanonicalSupportEntry,
                         c: CanonicalInnerEntries, c2e: CanonicalEntry -> E, c2s: CanonicalSupportEntry -> S)
    ensures var r := IntoCanonical(inner, e2c, s2c);
            |r.entries| == |inner.entries| && |r.freeEntries| == |inner.freeEntries|
            && |r.supportEntries| == |inner.supportEntries| && |r.freeSupportEntries| == |inner.freeSupportEntries|
            && (forall i :: 0 <= i < |inner.entries| ==> r.entries[i] == e2c(inner.entries[i]))
            && (forall i :: 0 <= i < |inner.freeEntries| ==> r.freeEntries[i] == e2c(inner.freeEntries[i]))
            && (forall i :: 0 <= i < |inner.supportEntries| ==> r.supportEntries[i] == s2c(inner.supportEntries[i]))
            && (forall i :: 0 <= i < |inner.freeSupportEntries| ==>
                  r.freeSupportEntries[i] == s2c(inner.freeSupportEntries[i]))
    ensures var r := FromCanonical(c, c2e, c2s);
            |r.entries| == |c.entries| && |r.freeEntries| == |c.freeEntries|
            && |r.supportEntries| == |c.supportEntries| && |r.freeSupportEntries| == |c.freeSupportEntries|
            && (forall i :: 0 <= i < |c.entries| ==> r.entries[i] == c2e(c.entries[i]))
            && (forall i :: 0 <= i < |c.freeEntries| ==> r.freeEntries[i] == c2e(c.freeEntries[i]))
            && (forall i :: 0 <= i < |c.supportEntries| ==> r.supportEntries[i] == c2s(c.supportEntries[i]))
            && (forall i :: 0 <= i < |c.freeSupportEntries| ==>
                  r.freeSupportEntries[i] == c2s(c.freeSupportEntries[i]))
  {
  }

  /** `Entries`: the table in one of the four revisions. */
  datatype Entries =
    | V180PS2(ps2Inner: InnerEntries<CanonicalEntry, CanonicalSupportEntry>)
    | V180(v180Inner: InnerEntries<EntryV180N16, SupportEntryN16>)
    | V170(v170Inner: InnerEntries<EntryV170, SupportEntryN16>)
    | V160(v160Inner: InnerEntries<EntryV160, SupportEntryN16>)

  function RevisionOf(e: Entries): Identity.MstVersionKnown
  {
    match e
    case V180PS2(_) => Identity.V180Ps2
    case V180(_) => Identity.V180
    case V170(_) => Identity.V170
    case V160(_) => Identity.V160
  }

  /** The four list lengths of a table: live, free, support, free support. */
  function Counts(e: Entries): (nat, nat, nat, nat)
  {
    match e
    case V180PS2(i) => (|i.entries|, |i.freeEntries|, |i.supportEntries|, |i.freeSupportEntries|)
    case V180(i) => (|i.entries|, |i.freeEntries|, |i.supportEntries|, |i.freeSupportEntries|)
    case V170(i) => (|i.entries|, |i.freeEntries|, |i.supportEntries|, |i.freeSupportEntries|)
    case V160(i) => (|i.entries|, |i.freeEntries|, |i.supportEntries|, |i.freeSupportEntries|)
  }

  /** The table in canonical form (`into_canonical`; the PS2 revision already is). */
  function Canonical(e: Entries): CanonicalInnerEntries
  {
    match e
    case V180PS2(inner) => inner
    case V180(inner) => IntoCanonical(inner, V180ToCanonical, SupportToCanonical)
    case V170(inner) => IntoCanonical(inner, V170ToCanonical, SupportToCanonical)
    case V160(inner) => IntoCanonical(inner, V160ToCanonical, SupportToCanonical)
  }

  /** `from_canonical` into the revision `t`. */
  function FromCanonicalAt(t: Identity.MstVersionKnown, c: CanonicalInnerEntries): Entries
  {
    match t
    case V180Ps2 => V180PS2(FromCanonical(c, x => x, x => x))
    case V180 => V180(FromCanonical(c, V180FromCanonical, SupportFromCanonical))
    case V170 => V170(FromCanonical(c, V170FromCanonical, SupportFromCanonical))
    case V160 => V160(FromCanonical(c, V160FromCanonical, SupportFromCanonical))
  }

  predicate Wide(t: Identity.MstVersionKnown) { t.V180Ps2? }
  predicate HasFlags(t: Identity.MstVersionKnown) { t.V180Ps2? || t.V180? }
  predicate HasCrc(t: Identity.MstVersionKnown) { !t.V160? }

  function ProjectSupport(s: CanonicalSupportEntry, wide: bool): CanonicalSupportEntry
  {
    if wide then s else s.(filename := Widen(Narrow(s.filename)))
  }

  /** What of a canonical table survives storing it in revision `t`. */
  function Project(t: Identity.MstVersionKnown, c: CanonicalInnerEntries): CanonicalInnerEntries
  {
    var pe := (x: CanonicalEntry) => ProjectEntry(x, Wide(t), HasFlags(t), HasCrc(t));
    var ps := (s: CanonicalSupportEntry) => ProjectSupport(s, Wide(t));
    InnerEntries(MapSeq(c.entries, pe), MapSeq(c.freeEntries, pe),
                 MapSeq(c.supportEntries, ps), MapSeq(c.freeSupportEntries, ps))
  }

  /** Storing a canonical table in revision `t` and viewing it canonically again
      keeps every list's length and order and every entry's offset, size and
      timestamp; it loses exactly what `t` cannot hold. */
  lemma CanonicalOfFromCanonical(t: Identity.MstVersionKnown, c: CanonicalInnerEntries)
    ensures RevisionOf(FromCanonicalAt(t, c)) == t
    ensures Canonical(FromCanonicalAt(t, c)) == Project(t, c)
  {
    var r := Canonical(FromCanonicalAt(t, c));
    var p := Project(t, c);
    assert r.entries == p.entries;
    assert r.freeEntries == p.freeEntries;
    assert r.supportEntries == p.supportEntries;
    assert r.freeSupportEntries == p.freeSupportEntries;
  }

  lemma NarrowTwice(n: Name20)
    ensures Widen(Narrow(Widen(Narrow(n)))) == Widen(Narrow(n))
  {
    NarrowWiden(Narrow(n));
  }

  lemma ProjectEntryTwice(t1: Identity.MstVersionKnown, t2: Identity.MstVersionKnown, x: CanonicalEntry)
    ensures ProjectEntry(ProjectEntry(x, Wide(t1), HasFlags(t1), HasCrc(t1)), Wide(t2), HasFlags(t2), HasCrc(t2))
         == ProjectEntry(x, Wide(t1) && Wide(t2), HasFlags(t1) && HasFlags(t2), HasCrc(t1) && HasCrc(t2))
  {
    NarrowTwice(x.filename);
  }

  lemma ProjectSupportTwice(t1: Identity.MstVersionKnown, t2: Identity.MstVersionKnown, s: CanonicalSupportEntry)
    ensures ProjectSupport(ProjectSupport(s, Wide(t1)), Wide(t2)) == ProjectSupport(s, Wide(t1) && Wide(t2))
  {
    NarrowTwice(s.filename);
  }

  /** Projecting twice is projecting once onto what both revisions can hold. */
  lemma ProjectTwice(t1: Identity.MstVersionKnown, t2: Identity.MstVersionKnown, c: CanonicalInnerEntries)
    ensures var both := (x: CanonicalEntry) =>
              ProjectEntry(x, Wide(t1) && Wide(t2), HasFlags(t1) && HasFlags(t2), HasCrc(t1) && HasCrc(t2));
            Project(t2, Project(t1, c)).entries == MapSeq(c.entries, both)
            && Project(t2, Project(t1, c)).freeEntries == MapSeq(c.freeEntries, both)
    ensures var wide := Wide(t1) && Wide(t2);
            Project(t2, Project(t1, c)).supportEntries == MapSeq(c.supportEntries, s => ProjectSupport(s, wide))
            && Project(t2, Project(t1, c)).freeSupportEntries == MapSeq(c.freeSupportEntries, s => ProjectSupport(s, wide))
  {
    forall x: CanonicalEntry
      ensures ProjectEntry(ProjectEntry(x, Wide(t1), HasFlags(t1), HasCrc(t1)), Wide(t2), HasFlags(t2), HasCrc(t2))
           == ProjectEntry(x, Wide(t1) && Wide(t2), HasFlags(t1) && HasFlags(t2), HasCrc(t1) && HasCrc(t2))
    {
      ProjectEntryTwice(t1, t2, x);
    }
    forall s: CanonicalSupportEntry
      ensures ProjectSupport(ProjectSupport(s, Wide(t1)), Wide(t2)) == ProjectSupport(s, Wide(t1) && Wide(t2))
    {
      ProjectSupportTwice(t1, t2, s);
    }
  }

  // ---------------------------------------------------------------------------
  // Entries::convert

  /** The revision a `(major, minor, patch, ps2)` target names, if it names one. */
  function TargetRevision(major: u8, minor: u8, patch: u8, ps2: bool): Option<Identity.MstVersionKnown>
  {
    if major != 1 || patch != 0 then None
    else if minor == 8 then Some(if ps2 then Identity.V180Ps2 else Identity.V180)
    else if minor == 7 && !ps2 then Some(Identity.V170)
    else if minor == 6 && !ps2 then Some(Identity.V160)
    else None
  }

  /** `Entries::convert`: the table's own target fails with "(self)", every other
      listed target goes through the canonical form, the rest fail with "(unknown)". */
  function Convert(e: Entries, major: u8, minor: u8, patch: u8, ps2: bool): Result<Entries, Error>
  {
    match (e, major, minor, patch, ps2)
    case (V180PS2(_), 1, 8, 0, true) => Err(ConversionToSelf)
    case (V180(_), 1, 8, 0, false) => Err(ConversionToSelf)
    case (V170(_), 1, 7, 0, false) => Err(ConversionToSelf)
    case (V160(_), 1, 6, 0, false) => Err(ConversionToSelf)
    case (_, 1, 8, 0, true) => Ok(V180PS2(FromCanonical(Canonical(e), x => x, x => x)))
    case (_, 1, 8, 0, false) => Ok(V180(FromCanonical(Canonical(e), V180FromCanonical, SupportFromCanonical)))
    case (V180PS2(_), 1, 7, 0, false) => Ok(V170(FromCanonical(Canonical(e), V170FromCanonical, SupportFromCanonical)))
    case (V180(_), 1, 7, 0, false) => Ok(V170(FromCanonical(Canonical(e), V170FromCanonical, SupportFromCanonical)))
    case (V160(_), 1, 7, 0, false) => Ok(V170(FromCanonical(Canonical(e), V170FromCanonical, SupportFromCanonical)))
    case (_, 1, 6, 0, false) => Ok(V160(FromCanonical(Canonical(e), V160FromCanonical, SupportFromCanonical)))
    case _ => Err(ConversionUnknown)
  }

  /** `convert` by revision: it succeeds exactly for a listed target other than
      the table's own revision, and then stores the canonical view in that
      revision; the table's own target is "(self)", anything else "(unknown)". */
  lemma ConvertByRevision(e: Entries, major: u8, minor: u8, patch: u8, ps2: bool)
    ensures Convert(e, major, minor, patch, ps2) ==
            match TargetRevision(major, minor, patch, ps2)
            case None => Err(ConversionUnknown)
            case Some(t) => if t == RevisionOf(e) then Err(ConversionToSelf) else Ok(FromCanonicalAt(t, Canonical(e)))
  {
  }

  /** A successful conversion has the target revision, the same four list
      lengths, and the canonical view projected onto what the target holds. */
  lemma ConvertResult(e: Entries, major: u8, minor: u8, patch: u8, ps2: bool)
    requires Convert(e, major, minor, patch, ps2).Ok?
    ensures var t := TargetRevision(major, minor, patch, ps2);
            var e' := Convert(e, major, minor, patch, ps2).value;
            t.Some? && t.value != RevisionOf(e) && RevisionOf(e') == t.value
            && Canonical(e') == Project(t.value, Canonical(e))
            && Counts(e') == Counts(e)
  {
    ConvertByRevision(e, major, minor, patch, ps2);
    var t := TargetRevision(major, minor, patch, ps2).value;
    CanonicalOfFromCanonical(t, Canonical(e));
    var e' := FromCanonicalAt(t, Canonical(e));
    CountsOfCanonical(e);
    CountsOfCanonical(e');
  }

  /** A converted table matches every version with the target's major, minor
      and ps2 bit. */
  lemma ConvertedMatches(e: Entries, major: u8, minor: u8, patch: u8, ps2: bool, v: Identity.MstVersion)
    requires Convert(e, major, minor, patch, ps2).Ok?
    requires v.Major() == major && v.Minor() == minor && (v.Ps2() > 0) == ps2
    ensures MatchesVersion(Convert(e, major, minor, patch, ps2).value, v)
  {
    ConvertResult(e, major, minor, patch, ps2);
  }

  lemma CountsOfCanonical(e: Entries)
    ensures var c := Canonical(e);
            Counts(e) == (|c.entries|, |c.freeEntries|, |c.supportEntries|, |c.freeSupportEntries|)
  {
  }

  /** Converting away and back again: every entry keeps its offset, size and
      timestamp, and the canonical view is projected through both revisions. */
  lemma ConvertAndBack(e: Entries, major: u8, minor: u8, patch: u8, ps2: bool,
                       major': u8, minor': u8, patch': u8, ps2': bool)
    requires Convert(e, major, minor, patch, ps2).Ok?
    requires Convert(Convert(e, major, minor, patch, ps2).value, major', minor', patch', ps2').Ok?
    ensures var e1 := Convert(e, major, minor, patch, ps2).value;
            var e2 := Convert(e1, major', minor', patch', ps2').value;
            var c, c2 := Canonical(e), Canonical(e2);
            Counts(e2) == Counts(e)
            && Canonical(e2) == Project(RevisionOf(e2), Project(RevisionOf(e1), c))
            && (forall i :: 0 <= i < |c.entries| ==>
                  c2.entries[i].offset == c.entries[i].offset && c2.entries[i].size == c.entries[i].size
                  && c2.entries[i].timestamp == c.entries[i].timestamp)
            && (forall i :: 0 <= i < |c.supportEntries| ==>
                  c2.supportEntries[i].timestamp == c.supportEntries[i].timestamp)
  {
    var e1 := Convert(e, major, minor, patch, ps2).value;
    ConvertResult(e, major, minor, patch, ps2);
    ConvertResult(e1, major', minor', patch', ps2');
    CountsOfCanonical(e);
  }

  /** Any target the source does not list fails, whatever the table. */
  lemma ConvertUnknownTargets(e: Entries, major: u8, minor: u8, patch: u8, ps2: bool)
    requires major != 1 || patch != 0 || (minor != 8 && ps2) || !(6 <= minor <= 8)
    ensures Convert(e, major, minor, patch, ps2) == Err(ConversionUnknown)
  {
  }

  // ---------------------------------------------------------------------------
  // Stored records: fixed-size chunks

  /** The bytes of consecutive records. */
  function Concat(chunks: seq<seq<u8>>): seq<u8>
  {
    if chunks == [] then [] else chunks[0] + Concat(chunks[1..])
  }

  predicate AllSized(chunks: seq<seq<u8>>, size: nat)
  {
    forall i :: 0 <= i < |chunks| ==> |chunks[i]| == size
  }

  lemma {:induction false} ConcatLength(chunks: seq<seq<u8>>, size: nat)
    requires AllSized(chunks, size)
    ensures |Concat(chunks)| == |chunks| * size
  {
    if chunks != [] {
      ConcatLength(chunks[1..], size);
    }
  }

  lemma {:induction false} ConcatSplit(chunks: seq<seq<u8>>, i: nat)
    requires i <= |chunks|
    ensures Concat(chunks) == Concat(chunks[..i]) + Concat(chunks[i..])
  {
    if i > 0 {
      ConcatSplit(chunks[1..], i - 1);
      assert chunks[1..][..i - 1] == chunks[..i][1..];
      assert chunks[1..][i - 1..] == chunks[i..];
    }
  }

  lemma ConcatSnoc(chunks: seq<seq<u8>>, c: seq<u8>)
    ensures Concat(chunks + [c]) == Concat(chunks) + c
  {
    ConcatSplit(chunks + [c], |chunks|);
    assert (chunks + [c])[..|chunks|] == chunks;
    assert (chunks + [c])[|chunks|..] == [c];
  }

  /** `count` records of `size` bytes each, taken from the front of `input`. */
  function ReadChunks(input: seq<u8>, count: nat, size: nat): (r: Option<(seq<seq<u8>>, seq<u8>)>)
    ensures r.Some? ==> |r.value.0| == count && AllSized(r.value.0, size)
                        && Concat(r.value.0) + r.value.1 == input
    decreases count
  {
    if count == 0 then Some(([], input))
    else if |input| < size then None
    else
      match ReadChunks(input[size..], count - 1, size)
      case None => None
      case Some((cs, rest)) =>
        assert Concat([input[..size]] + cs) == input[..size] + Concat(cs);
        Some(([input[..size]] + cs, rest))
  }

  /** Reading `count` records fails exactly when the input is shorter than they are. */
  lemma {:induction false} ReadChunksFits(input: seq<u8>, count: nat, size: nat)
    ensures ReadChunks(input, count, size).Some? <==> count * size <= |input|
  {
    if count > 0 {
      assert count * size == (count - 1) * size + size;
      if |input| >= size {
        ReadChunksFits(input[size..], count - 1, size);
      }
    }
  }

  lemma {:induction false} ReadChunksRoundTrip(chunks: seq<seq<u8>>, rest: seq<u8>, size: nat)
    requires AllSized(chunks, size)
    ensures ReadChunks(Concat(chunks) + rest, |chunks|, size) == Some((chunks, rest))
  {
    if chunks != [] {
      ReadChunksRoundTrip(chunks[1..], rest, size);
      AppendAssoc(chunks[0], Concat(chunks[1..]), rest);
      SplitFront(chunks[0], Concat(chunks[1..]) + rest, Concat(chunks) + rest);
      assert [chunks[0]] + chunks[1..] == chunks;
    } else {
      assert Concat(chunks) + rest == rest;
    }
  }

  /** The stored records of a table before decoding: four lists of chunks. */
  type RawTable = InnerEntries<seq<u8>, seq<u8>>

  function RawBytes(raw: RawTable): seq<u8>
  {
    Concat(raw.entries) + Concat(raw.freeEntries) + Concat(raw.supportEntries) + Concat(raw.freeSupportEntries)
  }

  predicate RawSized(raw: RawTable, entrySize: nat, supportSize: nat)
  {
    AllSized(raw.entries, entrySize) && AllSized(raw.freeEntries, entrySize)
    && AllSized(raw.supportEntries, supportSize) && AllSized(raw.freeSupportEntries, supportSize)
  }

  function InnerCounts<E, S>(inner: InnerEntries<E, S>): (nat, nat, nat, nat)
  {
    (|inner.entries|, |inner.freeEntries|, |inner.supportEntries|, |inner.freeSupportEntries|)
  }

  /** The header's four counts: live, free, support, free support. */
  function HeaderCounts(h: MstHeader): (nat, nat, nat, nat)
  {
    (h.numEntries, h.numFreeEntries, h.numSupportEntries, h.numFreeSupportEntries)
  }

  predicate CountsMatch<E, S>(inner: InnerEntries<E, S>, h: MstHeader)
  {
    InnerCounts(inner) == HeaderCounts(h)
  }

  /** The four `count = header.num_…` lists, in stored order. */
  function ReadRaw(input: seq<u8>, h: MstHeader, entrySize: nat, supportSize: nat): (r: Option<(RawTable, seq<u8>)>)
    ensures r.Some? ==> CountsMatch(r.value.0, h) && RawSized(r.value.0, entrySize, supportSize)
                        && RawBytes(r.value.0) + r.value.1 == input
  {
    var r1 := ReadChunks(input, h.numEntries, entrySize);
    if r1.None? then None else
    var r2 := ReadChunks(r1.value.1, h.numFreeEntries, entrySize);
    if r2.None? then None else
    var r3 := ReadChunks(r2.value.1, h.numSupportEntries, supportSize);
    if r3.None? then None else
    var r4 := ReadChunks(r3.value.1, h.numFreeSupportEntries, supportSize);
    if r4.None? then None else
    var raw := InnerEntries(r1.value.0, r2.value.0, r3.value.0, r4.value.0);
    AppendFive(Concat(r1.value.0), Concat(r2.value.0), Concat(r3.value.0), Concat(r4.value.0), r4.value.1);
    Some((raw, r4.value.1))
  }

  lemma ReadRawRoundTrip(raw: RawTable, rest: seq<u8>, h: MstHeader, entrySize: nat, supportSize: nat)
    requires CountsMatch(raw, h) && RawSized(raw, entrySize, supportSize)
    ensures ReadRaw(RawBytes(raw) + rest, h, entrySize, supportSize) == Some((raw, rest))
  {
    var t4 := Concat(raw.freeSupportEntries) + rest;
    var t3 := Concat(raw.supportEntries) + t4;
    var t2 := Concat(raw.freeEntries) + t3;
    var input := Concat(raw.entries) + t2;
    AppendFive(Concat(raw.entries), Concat(raw.freeEntries), Concat(raw.supportEntries), Concat(raw.freeSupportEntries), rest);
    ReadChunksRoundTrip(raw.entries, t2, entrySize);
    ReadChunksRoundTrip(raw.freeEntries, t3, entrySize);
    ReadChunksRoundTrip(raw.supportEntries, t4, supportSize);
    ReadChunksRoundTrip(raw.freeSupportEntries, rest, supportSize);
  }

  // ---------------------------------------------------------------------------
  // Decoding and encoding each revision

  function EntrySize(t: Identity.MstVersionKnown): nat
  {
    match t
    case V180Ps2 => 40
    case V180 => 36
    case V170 => 32
    case V160 => 28
  }

  /** The filename width of revision `t`. */
  function NameWidth(t: Identity.MstVersionKnown): nat
  {
    if t.V180Ps2? then 20 else 16
  }

  function SupportSize(t: Identity.MstVersionKnown): nat
  {
    NameWidth(t) + 4
  }

  function DecodeV180s(chunks: seq<seq<u8>>, width: nat, little: bool): (es: seq<EntryV180Variable>)
    requires AllSized(chunks, width + 20)
    ensures |es| == |chunks|
    ensures forall i :: 0 <= i < |chunks| ==> es[i] == ReadV180(chunks[i], width, little) && |es[i].filename| == width
  {
    seq(|chunks|, i requires 0 <= i < |chunks| => ReadV180(chunks[i], width, little))
  }

  function DecodeV170s(chunks: seq<seq<u8>>, little: bool): (es: seq<EntryV170>)
    requires AllSized(chunks, 32)
    ensures |es| == |chunks| && forall i :: 0 <= i < |chunks| ==> es[i] == ReadV170(chunks[i], little)
  {
    seq(|chunks|, i requires 0 <= i < |chunks| => ReadV170(chunks[i], little))
  }

  function DecodeV160s(chunks: seq<seq<u8>>, little: bool): (es: seq<EntryV160>)
    requires AllSized(chunks, 28)
    ensures |es| == |chunks| && forall i :: 0 <= i < |chunks| ==> es[i] == ReadV160(chunks[i], little)
  {
    seq(|chunks|, i requires 0 <= i < |chunks| => ReadV160(chunks[i], little))
  }

  function DecodeSupports(chunks: seq<seq<u8>>, width: nat, little: bool): (ss: seq<SupportEntryVariable>)
    requires AllSized(chunks, width + 4)
    ensures |ss| == |chunks|
    ensures forall i :: 0 <= i < |chunks| ==> ss[i] == ReadSupport(chunks[i], width, little) && |ss[i].filename| == width
  {
    seq(|chunks|, i requires 0 <= i < |chunks| => ReadSupport(chunks[i], width, little))
  }

  /** The records of revision `t`, decoded field by field. */
  function DecodeAt(t: Identity.MstVersionKnown, raw: RawTable, little: bool): (e: Entries)
    requires RawSized(raw, EntrySize(t), SupportSize(t))
    ensures RevisionOf(e) == t && Counts(e) == InnerCounts(raw)
  {
    match t
    case V180Ps2 =>
      V180PS2(InnerEntries(DecodeV180s(raw.entries, 20, little), DecodeV180s(raw.freeEntries, 20, little),
                           DecodeSupports(raw.supportEntries, 20, little),
                           DecodeSupports(raw.freeSupportEntries, 20, little)))
    case V180 =>
      V180(InnerEntries(DecodeV180s(raw.entries, 16, little), DecodeV180s(raw.freeEntries, 16, little),
                        DecodeSupports(raw.supportEntries, 16, little),
                        DecodeSupports(raw.freeSupportEntries, 16, little)))
    case V170 =>
      V170(InnerEntries(DecodeV170s(raw.entries, little), DecodeV170s(raw.freeEntries, little),
                        DecodeSupports(raw.supportEntries, 16, little),
                        DecodeSupports(raw.freeSupportEntries, 16, little)))
    case V160 =>
      V160(InnerEntries(DecodeV160s(raw.entries, little), DecodeV160s(raw.freeEntries, little),
                        DecodeSupports(raw.supportEntries, 16, little),
                        DecodeSupports(raw.freeSupportEntries, 16, little)))
  }

  function RowChunks(rows: seq<Row>, little: bool): (cs: seq<seq<u8>>)
    ensures |cs| == |rows| && forall i :: 0 <= i < |rows| ==> cs[i] == RowBytes(rows[i], little)
  {
    seq(|rows|, i requires 0 <= i < |rows| => RowBytes(rows[i], little))
  }

  function V180Rows(xs: seq<EntryV180Variable>, little: bool): (rows: seq<Row>)
    ensures |rows| == |xs| && forall i :: 0 <= i < |xs| ==> rows[i] == V180Row(xs[i], little)
  {
    seq(|xs|, i requires 0 <= i < |xs| => V180Row(xs[i], little))
  }

  function V170Rows(xs: seq<EntryV170>, little: bool): (rows: seq<Row>)
    ensures |rows| == |xs| && forall i :: 0 <= i < |xs| ==> rows[i] == V170Row(xs[i], little)
  {
    seq(|xs|, i requires 0 <= i < |xs| => V170Row(xs[i], little))
  }

  function V160Rows(xs: seq<EntryV160>, little: bool): (rows: seq<Row>)
    ensures |rows| == |xs| && forall i :: 0 <= i < |xs| ==> rows[i] == V160Row(xs[i], little)
  {
    seq(|xs|, i requires 0 <= i < |xs| => V160Row(xs[i], little))
  }

  function SupportChunks(ss: seq<SupportEntryVariable>, little: bool): (cs: seq<seq<u8>>)
    ensures |cs| == |ss| && forall i :: 0 <= i < |ss| ==> cs[i] == SupportBytes(ss[i], little)
  {
    seq(|ss|, i requires 0 <= i < |ss| => SupportBytes(ss[i], little))
  }

  /** The live entries as stored rows. */
  function LiveRows(e: Entries, little: bool): (rows: seq<Row>)
    ensures |rows| == Counts(e).0
  {
    match e
    case V180PS2(inner) => V180Rows(inner.entries, little)
    case V180(inner) => V180Rows(inner.entries, little)
    case V170(inner) => V170Rows(inner.entries, little)
    case V160(inner) => V160Rows(inner.entries, little)
  }

  /** The free entries as stored rows. */
  function FreeRows(e: Entries, little: bool): seq<Row>
  {
    match e
    case V180PS2(inner) => V180Rows(inner.freeEntries, little)
    case V180(inner) => V180Rows(inner.freeEntries, little)
    case V170(inner) => V170Rows(inner.freeEntries, little)
    case V160(inner) => V160Rows(inner.freeEntries, little)
  }

  /** The stored support and free support entries: name and timestamp in every revision. */
  function SupportRecords(e: Entries, little: bool): (seq<seq<u8>>, seq<seq<u8>>)
  {
    match e
    case V180PS2(inner) => (SupportChunks(inner.supportEntries, little), SupportChunks(inner.freeSupportEntries, little))
    case V180(inner) => (SupportChunks(inner.supportEntries, little), SupportChunks(inner.freeSupportEntries, little))
    case V170(inner) => (SupportChunks(inner.supportEntries, little), SupportChunks(inner.freeSupportEntries, little))
    case V160(inner) => (SupportChunks(inner.supportEntries, little), SupportChunks(inner.freeSupportEntries, little))
  }

  /** The stored records of a table, each in its revision's layout. */
  function Encode(e: Entries, little: bool): RawTable
  {
    InnerEntries(RowChunks(LiveRows(e, little), little), RowChunks(FreeRows(e, little), little),
                 SupportRecords(e, little).0, SupportRecords(e, little).1)
  }

  /** The table as written: the four lists of records, back to back. */
  function TableBytes(e: Entries, little: bool): seq<u8>
  {
    RowsBytes(LiveRows(e, little), little) + RowsBytes(FreeRows(e, little), little)
    + Concat(SupportRecords(e, little).0) + Concat(SupportRecords(e, little).1)
  }

  lemma TableBytesRaw(e: Entries, little: bool)
    ensures TableBytes(e, little) == RawBytes(Encode(e, little))
  {
    RowsBytesConcat(LiveRows(e, little), little);
    RowsBytesConcat(FreeRows(e, little), little);
  }

  /** Every record of a table has its revision's size, and the four lists
      keep the table's counts. */
  lemma EncodeSized(e: Entries, little: bool)
    ensures RawSized(Encode(e, little), EntrySize(RevisionOf(e)), SupportSize(RevisionOf(e)))
    ensures InnerCounts(Encode(e, little)) == Counts(e)
  {
  }

  lemma V180ListRoundTrip(xs: seq<EntryV180Variable>, width: nat, little: bool)
    requires forall i :: 0 <= i < |xs| ==> |xs[i].filename| == width
    ensures AllSized(RowChunks(V180Rows(xs, little), little), width + 20)
    ensures DecodeV180s(RowChunks(V180Rows(xs, little), little), width, little) == xs
  {
    var d := DecodeV180s(RowChunks(V180Rows(xs, little), little), width, little);
    forall i | 0 <= i < |xs| ensures d[i] == xs[i] {
      V180RoundTrip(xs[i], little);
    }
  }

  lemma V170ListRoundTrip(xs: seq<EntryV170>, little: bool)
    ensures AllSized(RowChunks(V170Rows(xs, little), little), 32)
    ensures DecodeV170s(RowChunks(V170Rows(xs, little), little), little) == xs
  {
    var d := DecodeV170s(RowChunks(V170Rows(xs, little), little), little);
    forall i | 0 <= i < |xs| ensures d[i] == xs[i] {
      V170RoundTrip(xs[i], little);
    }
  }

  lemma V160ListRoundTrip(xs: seq<EntryV160>, little: bool)
    ensures AllSized(RowChunks(V160Rows(xs, little), little), 28)
    ensures DecodeV160s(RowChunks(V160Rows(xs, little), little), little) == xs
  {
    var d := DecodeV160s(RowChunks(V160Rows(xs, little), little), little);
    forall i | 0 <= i < |xs| ensures d[i] == xs[i] {
      V160RoundTrip(xs[i], little);
    }
  }

  lemma SupportListRoundTrip(ss: seq<SupportEntryVariable>, width: nat, little: bool)
    requires forall i :: 0 <= i < |ss| ==> |ss[i].filename| == width
    ensures AllSized(SupportChunks(ss, little), width + 4)
    ensures DecodeSupports(SupportChunks(ss, little), width, little) == ss
  {
    var d := DecodeSupports(SupportChunks(ss, little), width, little);
    forall i | 0 <= i < |ss| ensures d[i] == ss[i] {
      SupportRoundTrip(ss[i], little);
    }
  }

  /** Decoding the records of a table in its own revision gives the table back. */
  lemma DecodeEncode(e: Entries, little: bool)
    ensures DecodeAt(RevisionOf(e), Encode(e, little), little) == e
  {
    match e
    case V180PS2(inner) =>
      V180ListRoundTrip(inner.entries, 20, little);
      V180ListRoundTrip(inner.freeEntries, 20, little);
      SupportListRoundTrip(inner.supportEntries, 20, little);
      SupportListRoundTrip(inner.freeSupportEntries, 20, little);
    case V180(inner) =>
      V180ListRoundTrip(inner.entries, 16, little);
      V180ListRoundTrip(inner.freeEntries, 16, little);
      SupportListRoundTrip(inner.supportEntries, 16, little);
      SupportListRoundTrip(inner.freeSupportEntries, 16, little);
    case V170(inner) =>
      V170ListRoundTrip(inner.entries, little);
      V170ListRoundTrip(inner.freeEntries, little);
      SupportListRoundTrip(inner.supportEntries, 16, little);
      SupportListRoundTrip(inner.freeSupportEntries, 16, little);
    case V160(inner) =>
      V160ListRoundTrip(inner.entries, little);
      V160ListRoundTrip(inner.freeEntries, little);
      SupportListRoundTrip(inner.supportEntries, 16, little);
      SupportListRoundTrip(inner.freeSupportEntries, 16, little);
  }

  // ---------------------------------------------------------------------------
  // Choosing the revision when reading, checking it when writing

  /** The revisions whose `pre_assert` admits `v`, in the order binrw tries them.
      The patch number plays no part. */
  function Candidates(v: Identity.MstVersion): seq<Identity.MstVersionKnown>
  {
    (if v.Major() == 1 && v.Minor() == 8 && v.Ps2() > 0 then [Identity.V180Ps2] else [])
    + (if v.Major() == 1 && v.Minor() == 8 then [Identity.V180] else [])
    + (if v.Major() == 1 && v.Minor() == 7 then [Identity.V170] else [])
    + (if v.Major() == 1 && v.Minor() == 6 then [Identity.V160] else [])
  }

  /** Tries each revision in turn; one whose records do not fit the input is
      passed over for the next. */
  function TryRevisions(input: seq<u8>, ts: seq<Identity.MstVersionKnown>, h: MstHeader, little: bool)
    : (r: Result<(Entries, seq<u8>), Error>)
  {
    if ts == [] then Err(NoVariantMatched)
    else match ReadRaw(input, h, EntrySize(ts[0]), SupportSize(ts[0]))
      case Some((raw, rest)) => Ok((DecodeAt(ts[0], raw, little), rest))
      case None => TryRevisions(input, ts[1..], h, little)
  }

  /** Reading the table of an archive with version `v` and header `h`: the lists
      have the header's four counts, the revision is one `v` admits, and what
      follows the table is left unread. */
  function ReadEntries(input: seq<u8>, v: Identity.MstVersion, h: MstHeader, little: bool)
    : (r: Result<(Entries, seq<u8>), Error>)
    ensures r.Ok? ==> Counts(r.value.0) == HeaderCounts(h)
                      && RevisionOf(r.value.0) in Candidates(v)
                      && |r.value.1| <= |input| && r.value.1 == input[|input| - |r.value.1|..]
  {
    TryRevisionsFacts(input, Candidates(v), h, little);
    TryRevisions(input, Candidates(v), h, little)
  }

  lemma {:induction false} TryRevisionsFacts(input: seq<u8>, ts: seq<Identity.MstVersionKnown>, h: MstHeader, little: bool)
    ensures var r := TryRevisions(input, ts, h, little);
            r.Ok? ==> Counts(r.value.0) == HeaderCounts(h) && RevisionOf(r.value.0) in ts
                      && |r.value.1| <= |input| && r.value.1 == input[|input| - |r.value.1|..]
  {
    if ts != [] {
      match ReadRaw(input, h, EntrySize(ts[0]), SupportSize(ts[0]))
      case Some((raw, rest)) =>
        assert input == RawBytes(raw) + rest;
      case None =>
        TryRevisionsFacts(input, ts[1..], h, little);
    }
  }

  /** Which revisions a version admits: PS2 needs 1.8 and the ps2 bit and comes
      first, 1.8 comes next with or without the bit, then 1.7 and 1.6 alone;
      any other major or minor admits none. */
  lemma CandidatesFacts(v: Identity.MstVersion)
    ensures forall t :: t in Candidates(v) <==>
              v.Major() == 1 && v.Minor() == Identity.KnownMinor(t) && (t == Identity.V180Ps2 ==> v.Ps2() > 0)
    ensures v.Major() == 1 && v.Minor() == 8 && v.Ps2() > 0 ==> Candidates(v) == [Identity.V180Ps2, Identity.V180]
    ensures Candidates(v) == [] <==> v.Major() != 1 || v.Minor() < 6 || v.Minor() > 8
  {
  }

  /** `#[bw(assert(...))]`: the revision a table may be written under. */
  predicate MatchesVersion(e: Entries, v: Identity.MstVersion)
  {
    match e
    case V180PS2(_) => v.Major() == 1 && v.Minor() == 8 && v.Ps2() > 0
    case V180(_) => v.Major() == 1 && v.Minor() == 8 && v.Ps2() == 0
    case V170(_) => v.Major() == 1 && v.Minor() == 7
    case V160(_) => v.Major() == 1 && v.Minor() == 6
  }

  /** A table written under a version it matches is the first revision that
      version admits when reading, and its names have `entry_name_length` bytes. */
  lemma MatchesVersionFacts(e: Entries, v: Identity.MstVersion)
    requires MatchesVersion(e, v)
    ensures |Candidates(v)| > 0 && Candidates(v)[0] == RevisionOf(e)
    ensures NameWidth(RevisionOf(e)) == v.EntryNameLength()
  {
  }

  /** Writing a table under a matching version and reading it back with a
      header carrying its counts gives the table and the rest of the input. */
  lemma ReadEntriesRoundTrip(e: Entries, v: Identity.MstVersion, h: MstHeader, little: bool, rest: seq<u8>)
    requires MatchesVersion(e, v) && Counts(e) == HeaderCounts(h)
    ensures ReadEntries(TableBytes(e, little) + rest, v, h, little) == Ok((e, rest))
  {
    MatchesVersionFacts(e, v);
    TableBytesRaw(e, little);
    EncodeSized(e, little);
    ReadRawRoundTrip(Encode(e, little), rest, h, EntrySize(RevisionOf(e)), SupportSize(RevisionOf(e)));
    DecodeEncode(e, little);
  }

  /** The patch number is never looked at when reading. */
  lemma ReadIgnoresPatch(input: seq<u8>, v: Identity.MstVersion, v': Identity.MstVersion, h: MstHeader, little: bool)
    requires v.Fields().(patch := 0) == v'.Fields().(patch := 0)
    ensures ReadEntries(input, v, h, little) == ReadEntries(input, v', h, little)
  {
    assert v.Major() == v'.Major() && v.Minor() == v'.Minor() && v.Ps2() == v'.Ps2();
  }

  /** A 1.8 archive with the ps2 bit whose records are too long for the input in
      the PS2 layout is read in the 16-byte layout when that one fits. */
  lemma Ps2FallsBack(input: seq<u8>, v: Identity.MstVersion, h: MstHeader, little: bool)
    requires v.Major() == 1 && v.Minor() == 8 && v.Ps2() > 0
    requires ReadRaw(input, h, 40, 24).None? && ReadRaw(input, h, 36, 20).Some?
    ensures ReadEntries(input, v, h, little).Ok?
    ensures RevisionOf(ReadEntries(input, v, h, little).value.0) == Identity.V180
  {
    var ts := Candidates(v);
    CandidatesFacts(v);
    assert TryRevisions(input, ts, h, little) == TryRevisions(input, ts[1..], h, little);
    assert ts[1..] == [Identity.V180];
  }

  // ---------------------------------------------------------------------------
  // Writing, with the offset fields of the live entries recorded

  function RowSize(r: Row): nat
  {
    |r.head| + 4 + |r.tail|
  }

  /** Rows written one after the other. */
  function RowsBytes(rows: seq<Row>, little: bool): seq<u8>
  {
    if rows == [] then [] else RowBytes(rows[0], little) + RowsBytes(rows[1..], little)
  }

  lemma {:induction false} RowsBytesConcat(rows: seq<Row>, little: bool)
    ensures Concat(RowChunks(rows, little)) == RowsBytes(rows, little)
  {
    if rows != [] {
      RowsBytesConcat(rows[1..], little);
      assert RowChunks(rows, little)[1..] == RowChunks(rows[1..], little);
    }
  }

  /** Where the offset field of each row sits when the rows are written from `start`. */
  function RowSites(start: nat, rows: seq<Row>): (sites: seq<nat>)
    ensures |sites| == |rows|
    decreases |rows|
  {
    if rows == [] then [] else [start + |rows[0].head|] + RowSites(start + RowSize(rows[0]), rows[1..])
  }

  lemma RowsBytesCons(rows: seq<Row>, little: bool)
    requires 0 < |rows|
    ensures RowsBytes(rows, little) == RowBytes(rows[0], little) + RowsBytes(rows[1..], little)
  {
  }

  lemma RowSitesCons(start: nat, rows: seq<Row>)
    requires 0 < |rows|
    ensures RowSites(start, rows) == [start + |rows[0].head|] + RowSites(start + RowSize(rows[0]), rows[1..])
  {
  }

  lemma RowOffsetField(r: Row, little: bool)
    ensures RowBytes(r, little)[|r.head|..|r.head| + 4] == U32Bytes(r.offset, little)
  {
  }

  /** The four bytes at position `site` of bytes `b` written from position `start`. */
  function FieldAt(b: seq<u8>, start: nat, site: nat): seq<u8>
    requires start <= site && site + 4 <= start + |b|
  {
    b[site - start..site - start + 4]
  }

  /** Rows written in one go are the rows before `i` followed by the rows from `i` on. */
  lemma {:induction false} RowsBytesSplit(rows: seq<Row>, i: nat, little: bool)
    requires i <= |rows|
    ensures RowsBytes(rows, little) == RowsBytes(rows[..i], little) + RowsBytes(rows[i..], little)
    decreases i
  {
    if i > 0 {
      RowsBytesSplit(rows[1..], i - 1, little);
      assert rows[1..][..i - 1] == rows[..i][1..];
      assert rows[1..][i - 1..] == rows[i..];
    }
  }

  /** The byte order does not change how long the written rows are. */
  lemma {:induction false} RowsBytesLength(rows: seq<Row>, little: bool)
    ensures |RowsBytes(rows, little)| == |RowsBytes(rows, true)|
  {
    if rows != [] {
      RowsBytesLength(rows[1..], little);
    }
  }

  /** The site of row `i` is past every byte of the rows before it and the head of row `i`. */
  lemma {:induction false} RowSiteAt(start: nat, rows: seq<Row>, i: nat)
    requires i < |rows|
    ensures RowSites(start, rows)[i] == start + |RowsBytes(rows[..i], true)| + |rows[i].head|
    decreases i
  {
    if i > 0 {
      RowSiteAt(start + RowSize(rows[0]), rows[1..], i - 1);
      assert rows[1..][..i - 1] == rows[..i][1..];
    }
  }

  /** The site recorded for row `i` lies inside the written rows and holds that row's offset. */
  lemma RowSiteHolds(start: nat, rows: seq<Row>, i: nat, little: bool)
    requires i < |rows|
    ensures var site, b := RowSites(start, rows)[i], RowsBytes(rows, little);
            start <= site && site + 4 <= start + |b|
            && FieldAt(b, start, site) == U32Bytes(rows[i].offset, little)
  {
    var p, r, s := RowsBytes(rows[..i], little), RowBytes(rows[i], little), RowsBytes(rows[i + 1..], little);
    RowsBytesSplit(rows, i, little);
    RowsBytesCons(rows[i..], little);
    assert rows[i..][1..] == rows[i + 1..];
    RowSiteAt(start, rows, i);
    RowsBytesLength(rows[..i], little);
    var h := |rows[i].head|;
    SliceRight(p, r + s, |p| + h, |p| + h + 4);
    SliceLeft(r, s, h, h + 4);
    RowOffsetField(rows[i], little);
  }

  /** Recorded sites increase, four bytes apart at least. */
  lemma {:induction false} RowSitesIncrease(start: nat, rows: seq<Row>, i: nat, j: nat)
    requires i < j < |rows|
    ensures RowSites(start, rows)[i] + 4 <= RowSites(start, rows)[j]
    decreases i
  {
    var start' := start + RowSize(rows[0]);
    var sites, sites' := RowSites(start, rows), RowSites(start', rows[1..]);
    RowSitesCons(start, rows);
    if i > 0 {
      RowSitesIncrease(start', rows[1..], i - 1, j - 1);
    } else {
      RowSiteHolds(start', rows[1..], j - 1, true);
    }
  }

  /** The recorded sites lie inside the written rows, in increasing order and
      four bytes apart at least, and each holds its row's offset value. */
  lemma RowSitesFacts(start: nat, rows: seq<Row>, little: bool)
    ensures var sites, b := RowSites(start, rows), RowsBytes(rows, little);
            (forall i :: 0 <= i < |rows| ==> start <= sites[i] && sites[i] + 4 <= start + |b|)
            && (forall i, j :: 0 <= i < j < |rows| ==> sites[i] + 4 <= sites[j])
            && (forall i :: 0 <= i < |rows| ==> FieldAt(b, start, sites[i]) == U32Bytes(rows[i].offset, little))
  {
    var sites, b := RowSites(start, rows), RowsBytes(rows, little);
    forall i | 0 <= i < |rows|
      ensures start <= sites[i] && sites[i] + 4 <= start + |b|
      ensures FieldAt(b, start, sites[i]) == U32Bytes(rows[i].offset, little)
    {
      RowSiteHolds(start, rows, i, little);
    }
    forall i, j | 0 <= i < j < |rows| ensures sites[i] + 4 <= sites[j] {
      RowSitesIncrease(start, rows, i, j);
    }
  }

  /** Writes rows at the end of the output; with `Some(list)` every offset field's
      position is appended to it. */
  method WriteRows(w: Stream, rows: seq<Row>, little: bool, entryOffsets: Option<seq<nat>>)
    returns (entryOffsets': Option<seq<nat>>)
    requires w.pos == |w.data|
    modifies w
    ensures w.pos == |w.data|
    ensures w.data == old(w.data) + RowsBytes(rows, little)
    ensures entryOffsets' ==
            if entryOffsets.Some? then Some(entryOffsets.value + RowSites(old(w.pos), rows)) else None
  {
    var start := w.pos;
    entryOffsets' := entryOffsets;
    for i := 0 to |rows|
      invariant w.pos == |w.data|
      invariant w.data + RowsBytes(rows[i..], little) == old(w.data) + RowsBytes(rows, little)
      invariant entryOffsets'.Some? == entryOffsets.Some?
      invariant entryOffsets.Some? ==>
                entryOffsets'.value + RowSites(w.pos, rows[i..]) == entryOffsets.value + RowSites(start, rows)
    {
      ghost var d, sites := w.data, entryOffsets';
      entryOffsets' := WriteRow(w, rows[i], little, entryOffsets');
      assert rows[i..][0] == rows[i] && rows[i..][1..] == rows[i + 1..];
      assert w.pos == |d| + RowSize(rows[i]);
      RowsBytesCons(rows[i..], little);
      RowSitesCons(|d|, rows[i..]);
      assert d + RowsBytes(rows[i..], little) == w.data + RowsBytes(rows[i + 1..], little);
      if entryOffsets.Some? {
        var later := RowSites(w.pos, rows[i + 1..]);
        assert RowSites(|d|, rows[i..]) == [|d| + |rows[i].head|] + later;
        AppendAssoc(sites.value, [|d| + |rows[i].head|], later);
        assert entryOffsets'.value + later == sites.value + RowSites(|d|, rows[i..]);
      }
    }
    assert rows[|rows|..] == [];
    assert RowSites(w.pos, []) == [];
    if entryOffsets.Some? {
      assert entryOffsets'.value + [] == entryOffsets'.value;
      assert entryOffsets' == Some(entryOffsets.value + RowSites(start, rows));
    }
  }

  /** `Entries` written under version `v`: the write assert is checked first;
      then the live entries are written with the offset recorder, the free
      entries without it, then both support lists. */
  method WriteEntries(w: Stream, e: Entries, v: Identity.MstVersion, little: bool, entryOffsets: seq<nat>)
    returns (r: Result<seq<nat>, Error>)
    requires w.pos == |w.data|
    modifies w
    ensures w.pos == |w.data|
    ensures !MatchesVersion(e, v) ==> r == Err(VersionMismatch) && w.data == old(w.data)
    ensures MatchesVersion(e, v) ==>
              r == Ok(entryOffsets + RowSites(old(w.pos), LiveRows(e, little)))
              && w.data == old(w.data) + TableBytes(e, little)
  {
    if !MatchesVersion(e, v) {
      return Err(VersionMismatch);
    }
    ghost var d0 := w.data;
    var liveRows, freeRows, records := LiveRows(e, little), FreeRows(e, little), SupportRecords(e, little);
    var live := WriteRows(w, liveRows, little, Some(entryOffsets));
    ghost var d1 := w.data;
    var _ := WriteRows(w, freeRows, little, None);
    ghost var d2 := w.data;
    var support, freeSupport := Concat(records.0), Concat(records.1);
    OverwriteAtEnd(w.data, support);
    w.WriteAll(support);
    OverwriteAtEnd(w.data, freeSupport);
    w.WriteAll(freeSupport);
    assert w.data == d0 + RowsBytes(liveRows, little) + RowsBytes(freeRows, little) + support + freeSupport;
    AppendFour(d0, RowsBytes(liveRows, little), RowsBytes(freeRows, little), support, freeSupport);
    r := Ok(live.value);
  }
}
