/** The image `MstBuilder::write` leaves behind (fang/src/mst/builder.rs:275-307):
    the created archive with the file size, the data offset and every live
    entry's offset patched in, followed by the content blocks. */
module BuilderImage {
  import opened Bytes
  import opened Io
  import opened Archive
  import opened BuilderLayout

  /** The length of the output once every block is written. */
  function FileSize(table: seq<u8>, contents: seq<seq<u8>>): nat
  {
    |table| + |Placed(|table|, contents)|
  }

  /** `content_offsets.iter().min().unwrap_or(&file_size)` */
  function DataOffset(table: seq<u8>, contents: seq<seq<u8>>): nat
  {
    if |contents| == 0 then FileSize(table, contents) else MinOffset(Offsets(|table|, contents))
  }

  /** The output after the header's file size and data offset words are
      written over the created archive (`table`) and the content layout. */
  function SizedImage(table: seq<u8>, contents: seq<seq<u8>>, little: bool): (d: seq<u8>)
    requires DATA_OFFSET_AT + 4 <= |table|
    ensures |d| == FileSize(table, contents)
  {
    var sized := Overwrite(table + Placed(|table|, contents), FILE_SIZE_AT, U32Bytes(AsU32(FileSize(table, contents)), little));
    Overwrite(sized, DATA_OFFSET_AT, U32Bytes(AsU32(DataOffset(table, contents)), little))
  }

  /** The output after the last step of `write`: every recorded offset field
      of the sized image patched with its block's offset. */
  function WrittenImage(table: seq<u8>, contents: seq<seq<u8>>, sites: seq<nat>, little: bool): seq<u8>
    requires DATA_OFFSET_AT + 4 <= |table| && |sites| == |contents|
  {
    PatchSites(SizedImage(table, contents, little), sites, Offsets(|table|, contents), little)
  }

  /** `k` lies in the file size or the data offset word of the header. */
  predicate PatchedWord(k: nat)
  {
    FILE_SIZE_AT <= k < FILE_SIZE_AT + 4 || DATA_OFFSET_AT <= k < DATA_OFFSET_AT + 4
  }

  /** The created archive with its two header words and its offset fields patched. */
  function FinishedTable(table: seq<u8>, sites: seq<nat>, values: seq<nat>, fileSize: nat, dataOffset: nat, little: bool): (t: seq<u8>)
    requires DATA_OFFSET_AT + 4 <= |table| && |sites| == |values|
    requires forall j :: 0 <= j < |sites| ==> sites[j] + 4 <= |table|
    ensures |t| == |table|
  {
    var sized := Overwrite(table, FILE_SIZE_AT, U32Bytes(AsU32(fileSize), little));
    var d := Overwrite(sized, DATA_OFFSET_AT, U32Bytes(AsU32(dataOffset), little));
    PatchSitesConcat(d, [], sites, values, little);
    PatchSites(d, sites, values, little)
  }

  /** Writing inside the first part of a concatenation leaves the second alone. */
  lemma {:induction false} OverwriteConcat(x: seq<u8>, y: seq<u8>, pos: nat, bytes: seq<u8>)
    requires pos + |bytes| <= |x|
    ensures Overwrite(x + y, pos, bytes) == Overwrite(x, pos, bytes) + y
  {
    assert (x + y)[pos + |bytes|..] == x[pos + |bytes|..] + y;
  }

  lemma {:induction false} PatchSitesConcat(x: seq<u8>, y: seq<u8>, sites: seq<nat>, values: seq<nat>, little: bool)
    requires |sites| == |values| && forall j :: 0 <= j < |sites| ==> sites[j] + 4 <= |x|
    ensures |PatchSites(x, sites, values, little)| == |x|
    ensures PatchSites(x + y, sites, values, little) == PatchSites(x, sites, values, little) + y
    decreases |sites|
  {
    if |sites| > 0 {
      var n := |sites| - 1;
      PatchSitesConcat(x, y, sites[..n], values[..n], little);
      OverwriteConcat(PatchSites(x, sites[..n], values[..n], little), y, sites[n], U32Bytes(AsU32(values[n]), little));
    }
  }

  /** The finished archive: the created archive with its size, data offset
      and entry offsets filled in, followed by the content blocks, each
      aligned to 2048 bytes. */
  function BuiltImage(table: seq<u8>, contents: seq<seq<u8>>, sites: seq<nat>, little: bool): (image: seq<u8>)
    requires DATA_OFFSET_AT + 4 <= |table| && |sites| == |contents|
    requires forall j :: 0 <= j < |sites| ==> sites[j] + 4 <= |table|
    ensures |image| == FileSize(table, contents) && |table| <= |image|
  {
    var o := Offsets(|table|, contents);
    FinishedTable(table, sites, o, FileSize(table, contents), DataOffset(table, contents), little) + Placed(|table|, contents)
  }

  /** The writes `write` makes produce the finished archive, since every
      patch lands inside the table. */
  lemma {:induction false} WrittenIsBuilt(table: seq<u8>, contents: seq<seq<u8>>, sites: seq<nat>, little: bool)
    requires DATA_OFFSET_AT + 4 <= |table| && |sites| == |contents|
    requires forall j :: 0 <= j < |sites| ==> sites[j] + 4 <= |table|
    ensures WrittenImage(table, contents, sites, little) == BuiltImage(table, contents, sites, little)
  {
    var p, o := Placed(|table|, contents), Offsets(|table|, contents);
    var f1, f2 := U32Bytes(AsU32(FileSize(table, contents)), little), U32Bytes(AsU32(DataOffset(table, contents)), little);
    OverwriteConcat(table, p, FILE_SIZE_AT, f1);
    var sized := Overwrite(table, FILE_SIZE_AT, f1);
    OverwriteConcat(sized, p, DATA_OFFSET_AT, f2);
    PatchSitesConcat(Overwrite(sized, DATA_OFFSET_AT, f2), p, sites, o, little);
  }

  /** Overwriting two four-byte header words of an output that holds them. */
  lemma {:induction false} TwoWords(image: seq<u8>, f1: seq<u8>, f2: seq<u8>)
    requires DATA_OFFSET_AT + 4 <= |image| && |f1| == 4 && |f2| == 4
    ensures var d := Overwrite(Overwrite(image, FILE_SIZE_AT, f1), DATA_OFFSET_AT, f2);
            |d| == |image|
            && d[FILE_SIZE_AT..FILE_SIZE_AT + 4] == f1
            && d[DATA_OFFSET_AT..DATA_OFFSET_AT + 4] == f2
            && forall k :: 0 <= k < |d| && !PatchedWord(k) ==> d[k] == image[k]
  {
    var sized := Overwrite(image, FILE_SIZE_AT, f1);
    OverwriteElsewhere(image, FILE_SIZE_AT, f1);
    OverwriteElsewhere(sized, DATA_OFFSET_AT, f2);
    var d := Overwrite(sized, DATA_OFFSET_AT, f2);
    assert d[FILE_SIZE_AT..FILE_SIZE_AT + 4] == sized[FILE_SIZE_AT..FILE_SIZE_AT + 4];
  }

  /** The finished table: the header's two words and every offset field hold
      their values, truncated to u32; every other byte is as created. */
  lemma {:induction false} FinishedTableFacts(table: seq<u8>, sites: seq<nat>, values: seq<nat>, fileSize: nat, dataOffset: nat, little: bool)
    requires TABLE_AT <= |table| && |sites| == |values| && Spaced(sites)
    requires forall j :: 0 <= j < |sites| ==> TABLE_AT <= sites[j] && sites[j] + 4 <= |table|
    ensures var t := FinishedTable(table, sites, values, fileSize, dataOffset, little);
            |t| == |table|
            && ReadU32(t[FILE_SIZE_AT..FILE_SIZE_AT + 4], little) == AsU32(fileSize)
            && ReadU32(t[DATA_OFFSET_AT..DATA_OFFSET_AT + 4], little) == AsU32(dataOffset)
            && (forall j :: 0 <= j < |sites| ==> ReadU32(t[sites[j]..sites[j] + 4], little) == AsU32(values[j]))
            && (forall k :: 0 <= k < |table| && !PatchedWord(k) && OutsideSites(k, sites) ==> t[k] == table[k])
  {
    var f1, f2 := U32Bytes(AsU32(fileSize), little), U32Bytes(AsU32(dataOffset), little);
    var d := Overwrite(Overwrite(table, FILE_SIZE_AT, f1), DATA_OFFSET_AT, f2);
    var t := PatchSites(d, sites, values, little);
    assert |t| == |table| && t[FILE_SIZE_AT..FILE_SIZE_AT + 4] == f1 && t[DATA_OFFSET_AT..DATA_OFFSET_AT + 4] == f2
           && (forall j :: 0 <= j < |sites| ==> t[sites[j]..sites[j] + 4] == U32Bytes(AsU32(values[j]), little))
           && (forall k :: 0 <= k < |table| && !PatchedWord(k) && OutsideSites(k, sites) ==> t[k] == table[k]) by {
      TwoWords(table, f1, f2);
      PatchSitesFacts(d, sites, values, little);
      forall k | 0 <= k < TABLE_AT ensures t[k] == d[k] {
        assert OutsideSites(k, sites);
      }
    }
    U32RoundTrip(AsU32(fileSize), little);
    U32RoundTrip(AsU32(dataOffset), little);
    forall j | 0 <= j < |sites|
      ensures ReadU32(t[sites[j]..sites[j] + 4], little) == AsU32(values[j])
    {
      U32RoundTrip(AsU32(values[j]), little);
    }
  }

  /** Since the offsets never decrease, the data offset is the first block's
      offset, or the file size when there are no blocks. */
  lemma {:induction false} DataOffsetIsFirst(table: seq<u8>, contents: seq<seq<u8>>)
    ensures DataOffset(table, contents) == if |contents| == 0 then FileSize(table, contents) else Offsets(|table|, contents)[0]
  {
    if |contents| > 0 {
      MinOffsetIsFirst(|table|, contents);
    }
  }

  /** The finished archive's header holds its own length as the file size
      and the first block's offset (the file size when there is none) as
      the data offset, truncated to u32 and in the archive's byte order. */
  lemma {:induction false} BuiltHeaderWords(table: seq<u8>, contents: seq<seq<u8>>, sites: seq<nat>, little: bool)
    requires TABLE_AT <= |table| && |sites| == |contents| && Spaced(sites)
    requires forall j :: 0 <= j < |sites| ==> TABLE_AT <= sites[j] && sites[j] + 4 <= |table|
    ensures var image := BuiltImage(table, contents, sites, little);
            ReadU32(image[FILE_SIZE_AT..FILE_SIZE_AT + 4], little) == AsU32(|image|)
            && ReadU32(image[DATA_OFFSET_AT..DATA_OFFSET_AT + 4], little)
               == AsU32(if |contents| == 0 then |image| else Offsets(|table|, contents)[0])
  {
    var p, o := Placed(|table|, contents), Offsets(|table|, contents);
    var t := FinishedTable(table, sites, o, FileSize(table, contents), DataOffset(table, contents), little);
    DataOffsetIsFirst(table, contents);
    FinishedTableFacts(table, sites, o, FileSize(table, contents), DataOffset(table, contents), little);
    SliceLeft(t, p, FILE_SIZE_AT, FILE_SIZE_AT + 4);
    SliceLeft(t, p, DATA_OFFSET_AT, DATA_OFFSET_AT + 4);
  }

  /** The offset field of the `j`th live entry holds the offset of the `j`th
      block, truncated to u32 and in the archive's byte order. */
  lemma {:induction false} BuiltSiteAt(table: seq<u8>, contents: seq<seq<u8>>, sites: seq<nat>, little: bool, j: nat)
    requires TABLE_AT <= |table| && |sites| == |contents| && Spaced(sites)
    requires forall q :: 0 <= q < |sites| ==> TABLE_AT <= sites[q] && sites[q] + 4 <= |table|
    requires j < |sites|
    ensures var image := BuiltImage(table, contents, sites, little);
            ReadU32(image[sites[j]..sites[j] + 4], little) == AsU32(Offsets(|table|, contents)[j])
  {
    var p, o := Placed(|table|, contents), Offsets(|table|, contents);
    var t := FinishedTable(table, sites, o, FileSize(table, contents), DataOffset(table, contents), little);
    assert ReadU32(t[sites[j]..sites[j] + 4], little) == AsU32(o[j]) by {
      FinishedTableFacts(table, sites, o, FileSize(table, contents), DataOffset(table, contents), little);
    }
    WordInFront(BuiltImage(table, contents, sites, little), t, p, sites[j], little, AsU32(o[j]));
  }

  /** A word inside the front part of a concatenation reads the same there. */
  lemma {:induction false} WordInFront(image: seq<u8>, t: seq<u8>, p: seq<u8>, at: nat, little: bool, value: u32)
    requires image == t + p && at + 4 <= |t| && ReadU32(t[at..at + 4], little) == value
    ensures ReadU32(image[at..at + 4], little) == value
  {
    SliceLeft(t, p, at, at + 4);
  }

  /** Every table byte outside the two header words and the offset fields
      is as created. */
  lemma {:induction false} BuiltKeeps(table: seq<u8>, contents: seq<seq<u8>>, sites: seq<nat>, little: bool, k: nat)
    requires TABLE_AT <= |table| && |sites| == |contents| && Spaced(sites)
    requires forall j :: 0 <= j < |sites| ==> TABLE_AT <= sites[j] && sites[j] + 4 <= |table|
    requires k < |table| && !PatchedWord(k) && OutsideSites(k, sites)
    ensures BuiltImage(table, contents, sites, little)[k] == table[k]
  {
    var o := Offsets(|table|, contents);
    FinishedTableFacts(table, sites, o, FileSize(table, contents), DataOffset(table, contents), little);
  }

  /** Block `i` sits unchanged past the table, at a multiple of 2048. */
  lemma {:induction false} BuiltBlockAt(table: seq<u8>, contents: seq<seq<u8>>, sites: seq<nat>, little: bool, i: nat)
    requires DATA_OFFSET_AT + 4 <= |table| && |sites| == |contents|
    requires forall j :: 0 <= j < |sites| ==> sites[j] + 4 <= |table|
    requires i < |contents|
    ensures var image, o := BuiltImage(table, contents, sites, little), Offsets(|table|, contents)[i];
            o % ALIGNMENT == 0 && |table| <= o && o + |contents[i]| <= |image|
            && image[o..o + |contents[i]|] == contents[i]
  {
    var o := Offsets(|table|, contents);
    var t := FinishedTable(table, sites, o, FileSize(table, contents), DataOffset(table, contents), little);
    BlockAfter(BuiltImage(table, contents, sites, little), t, contents, i);
  }

  /** Any bytes `t` followed by blocks laid out from `|t|` on: block `i` sits
      unchanged at its offset, a multiple of 2048 past `t`. */
  lemma {:induction false} BlockAfter(image: seq<u8>, t: seq<u8>, contents: seq<seq<u8>>, i: nat)
    requires image == t + Placed(|t|, contents) && i < |contents|
    ensures var o := Offsets(|t|, contents)[i];
            o % ALIGNMENT == 0 && |t| <= o && o + |contents[i]| <= |image|
            && image[o..o + |contents[i]|] == contents[i]
  {
    var p, o := Placed(|t|, contents), Offsets(|t|, contents)[i];
    BlockInPlace(|t|, contents, i);
    SliceRight(t, p, o, o + |contents[i]|);
  }

  /** The `zip` loop at the end of `write`: seek to each recorded field and
      write the matching offset there as a u32 in the archive's byte order,
      for as many pairs as the shorter list holds. */
  method PatchOffsets(w: Stream, sites: seq<nat>, offsets: seq<nat>, little: bool)
    modifies w
    ensures var n := if |sites| < |offsets| then |sites| else |offsets|;
            w.data == PatchSites(old(w.data), sites[..n], offsets[..n], little)
  {
    var n := if |sites| < |offsets| then |sites| else |offsets|;
    ghost var d := w.data;
    var j := 0;
    while j < n
      invariant 0 <= j <= n
      invariant w.data == PatchSites(d, sites[..j], offsets[..j], little)
    {
      PatchSitesNext(d, sites, offsets, j, little);
      w.Seek(sites[j]);
      w.WriteAll(U32Bytes(AsU32(offsets[j]), little));
      j := j + 1;
    }
  }

  /** Seeking back to the header and writing the file size (the output's
      length) and the data offset (the smallest recorded offset, or the file
      size when none was recorded), each as a u32 in the archive's byte order. */
  method PatchHeader(w: Stream, offsets: seq<nat>, little: bool, ghost table: seq<u8>, ghost contents: seq<seq<u8>>)
    requires DATA_OFFSET_AT + 4 <= |table|
    requires w.data == table + Placed(|table|, contents) && w.pos == |w.data|
    requires offsets == Offsets(|table|, contents)
    modifies w
    ensures w.data == SizedImage(table, contents, little)
  {
    var fileSize := w.StreamPosition();
    w.Seek(FILE_SIZE_AT);
    w.WriteAll(U32Bytes(AsU32(fileSize), little));
    w.Seek(DATA_OFFSET_AT);
    var dataOffset := if |offsets| == 0 then fileSize else MinOffset(offsets);
    w.WriteAll(U32Bytes(AsU32(dataOffset), little));
  }

  /** What `write` does once every block is written: the header's two words,
      then the offset fields, leaving the output as `WrittenImage` says. */
  method FinishImage(w: Stream, sites: seq<nat>, offsets: seq<nat>, little: bool,
                     ghost table: seq<u8>, ghost contents: seq<seq<u8>>)
    requires DATA_OFFSET_AT + 4 <= |table| && |sites| == |contents|
    requires w.data == table + Placed(|table|, contents) && w.pos == |w.data|
    requires offsets == Offsets(|table|, contents)
    modifies w
    ensures w.data == WrittenImage(table, contents, sites, little)
  {
    PatchHeader(w, offsets, little, table, contents);
    PatchOffsets(w, sites, offsets, little);
    assert sites[..|sites|] == sites && offsets[..|offsets|] == offsets;
  }
}
