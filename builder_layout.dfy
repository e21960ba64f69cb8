/** Where `MstBuilder::write` puts things (fang/src/mst/builder.rs:240-307):
    content blocks laid out at 2048-byte boundaries after the table, and u32
    values patched into fields that were written earlier. */
module BuilderLayout {
  import opened Bytes

  const ALIGNMENT: nat := 2048

  /** The zero padding written before a block when the output stands at `pos`:
      none when `pos` is aligned, otherwise up to the next boundary. */
  function Padding(pos: nat): nat
  {
    if pos % 2048 > 0 then 2048 - pos % 2048 else 0
  }

  /** The padding is shorter than 2048 bytes, is empty exactly when `pos` is
      already aligned, and brings the output to a multiple of 2048. */
  lemma {:induction false} PaddingAligns(pos: nat)
    ensures Padding(pos) < ALIGNMENT && (pos + Padding(pos)) % ALIGNMENT == 0
    ensures Padding(pos) == 0 <==> pos % ALIGNMENT == 0
  {
    if pos % 2048 > 0 {
      assert pos + Padding(pos) == 2048 * (pos / 2048 + 1);
    }
  }

  /** The bytes written from position `start` for `blocks`: each block preceded
      by the padding that aligns it. */
  function Placed(start: nat, blocks: seq<seq<u8>>): (r: seq<u8>)
    decreases |blocks|
  {
    if |blocks| == 0 then []
    else
      var init := Placed(start, blocks[..|blocks| - 1]);
      init + Zeros(Padding(start + |init|)) + blocks[|blocks| - 1]
  }

  /** Where each block starts, in the order written. */
  function Offsets(start: nat, blocks: seq<seq<u8>>): (r: seq<nat>)
    ensures |r| == |blocks|
    decreases |blocks|
  {
    if |blocks| == 0 then []
    else
      var n := |blocks| - 1;
      var end := start + |Placed(start, blocks[..n])|;
      Offsets(start, blocks[..n]) + [end + Padding(end)]
  }

  /** Laying out more blocks keeps what was laid out for the first `k`. */
  lemma {:induction false} PlacedPrefix(start: nat, blocks: seq<seq<u8>>, k: nat)
    requires k <= |blocks|
    ensures |Placed(start, blocks[..k])| <= |Placed(start, blocks)|
    ensures Placed(start, blocks[..k]) == Placed(start, blocks)[..|Placed(start, blocks[..k])|]
    decreases |blocks|
  {
    if k < |blocks| {
      var n := |blocks| - 1;
      assert blocks[..n][..k] == blocks[..k];
      PlacedPrefix(start, blocks[..n], k);
    } else {
      assert blocks[..k] == blocks;
    }
  }

  /** ... and where those `k` blocks start. */
  lemma {:induction false} OffsetsPrefix(start: nat, blocks: seq<seq<u8>>, k: nat)
    requires k <= |blocks|
    ensures Offsets(start, blocks[..k]) == Offsets(start, blocks)[..k]
    decreases |blocks|
  {
    if k < |blocks| {
      var n := |blocks| - 1;
      assert blocks[..n][..k] == blocks[..k];
      OffsetsPrefix(start, blocks[..n], k);
    } else {
      assert blocks[..k] == blocks;
    }
  }

  lemma {:induction false} PlacedUnfold(start: nat, b: seq<seq<u8>>)
    requires |b| > 0
    ensures Placed(start, b)
         == Placed(start, b[..|b| - 1]) + Zeros(Padding(start + |Placed(start, b[..|b| - 1])|)) + b[|b| - 1]
  {
  }

  /** Laying out one more block: the padding that aligns it, then the block. */
  lemma {:induction false} PlacedNext(start: nat, blocks: seq<seq<u8>>, c: seq<u8>)
    ensures Placed(start, blocks + [c])
         == Placed(start, blocks) + Zeros(Padding(start + |Placed(start, blocks)|)) + c
  {
    var b := blocks + [c];
    assert b[..|b| - 1] == blocks;
    PlacedUnfold(start, b);
  }

  /** The block laid out next starts at the next multiple of 2048. */
  lemma {:induction false} OffsetsNext(start: nat, blocks: seq<seq<u8>>, c: seq<u8>)
    ensures var end := start + |Placed(start, blocks)|;
            Offsets(start, blocks + [c]) == Offsets(start, blocks) + [end + Padding(end)]
  {
    var b := blocks + [c];
    assert b[..|b| - 1] == blocks;
  }

  /** After bytes `table`, laying out one more block appends its padding and
      the block, and records where it starts. */
  lemma {:induction false} AppendBlock(table: seq<u8>, blocks: seq<seq<u8>>, c: seq<u8>)
    ensures var before := table + Placed(|table|, blocks);
            table + Placed(|table|, blocks + [c]) == before + Zeros(Padding(|before|)) + c
            && Offsets(|table|, blocks + [c]) == Offsets(|table|, blocks) + [|before| + Padding(|before|)]
  {
    var p := Placed(|table|, blocks);
    var z := Zeros(Padding(|table| + |p|));
    PlacedNext(|table|, blocks, c);
    OffsetsNext(|table|, blocks, c);
    AppendAssoc(table, p + z, c);
    AppendAssoc(table, p, z);
  }

  /** The last block sits at its offset, right after its padding, at the end. */
  lemma {:induction false} PlacedLast(start: nat, blocks: seq<seq<u8>>)
    requires |blocks| > 0
    ensures var n := |blocks| - 1;
            var p, o := Placed(start, blocks), Offsets(start, blocks);
            var end := start + |Placed(start, blocks[..n])|;
            o[n] == end + Padding(end)
            && start + |p| == o[n] + |blocks[n]|
            && p[o[n] - start..] == blocks[n]
            && p[..end - start] == Placed(start, blocks[..n])
            && (forall k :: end - start <= k < o[n] - start ==> p[k] == 0)
  {
    var n := |blocks| - 1;
    var init := Placed(start, blocks[..n]);
    var pad := Zeros(Padding(start + |init|));
    assert Placed(start, blocks) == init + pad + blocks[n];
    assert (init + pad + blocks[n])[|init| + |pad|..] == blocks[n];
    assert (init + pad + blocks[n])[..|init|] == init;
  }

  /** The first `i + 1` blocks, seen through the last of them. */
  lemma {:induction false} PrefixLast(start: nat, blocks: seq<seq<u8>>, i: nat)
    requires i < |blocks|
    ensures var q := Placed(start, blocks[..i + 1]);
            var o := Offsets(start, blocks)[i];
            var end := start + |Placed(start, blocks[..i])|;
            |q| <= |Placed(start, blocks)|
            && q == Placed(start, blocks)[..|q|]
            && o == end + Padding(end)
            && start + |q| == o + |blocks[i]|
            && q[o - start..] == blocks[i]
            && (forall k :: end - start <= k < o - start ==> q[k] == 0)
  {
    PlacedPrefix(start, blocks, i + 1);
    OffsetsPrefix(start, blocks, i + 1);
    PlacedLast(start, blocks[..i + 1]);
    assert blocks[..i + 1][..i] == blocks[..i];
    assert blocks[..i + 1][i] == blocks[i];
  }

  /** Block `i` starts right after the padding that follows the blocks
      before it, and its bytes are written unchanged at its offset. */
  lemma {:induction false} BlockAt(start: nat, blocks: seq<seq<u8>>, i: nat)
    requires i < |blocks|
    ensures var p, o := Placed(start, blocks), Offsets(start, blocks)[i];
            var end := start + |Placed(start, blocks[..i])|;
            o == end + Padding(end) && o + |blocks[i]| <= start + |p|
            && p[o - start..o - start + |blocks[i]|] == blocks[i]
  {
    var p, o := Placed(start, blocks), Offsets(start, blocks)[i];
    var q := Placed(start, blocks[..i + 1]);
    PrefixLast(start, blocks, i);
    SliceLeft(q, p[|q|..], o - start, |q|);
    assert p == q + p[|q|..];
  }

  /** Block `i` starts at the first multiple of 2048 after the blocks before it. */
  lemma {:induction false} OffsetAt(start: nat, blocks: seq<seq<u8>>, i: nat)
    requires i < |blocks|
    ensures var end := start + |Placed(start, blocks[..i])|;
            Offsets(start, blocks)[i] == end + Padding(end)
  {
    OffsetsPrefix(start, blocks, i + 1);
    assert blocks[..i + 1][..i] == blocks[..i];
  }

  /** Every block starts at a multiple of 2048, no earlier than `start`. */
  lemma {:induction false} OffsetAligned(start: nat, blocks: seq<seq<u8>>, i: nat)
    requires i < |blocks|
    ensures start <= Offsets(start, blocks)[i] && Offsets(start, blocks)[i] % ALIGNMENT == 0
  {
    OffsetAt(start, blocks, i);
    PaddingAligns(start + |Placed(start, blocks[..i])|);
  }

  /** Block `i` lies, unchanged, inside the bytes laid out, at a multiple
      of 2048 no earlier than `start`. */
  lemma {:induction false} BlockInPlace(start: nat, blocks: seq<seq<u8>>, i: nat)
    requires i < |blocks|
    ensures var p, o := Placed(start, blocks), Offsets(start, blocks)[i];
            start <= o && o % ALIGNMENT == 0 && o + |blocks[i]| <= start + |p|
            && p[o - start..o - start + |blocks[i]|] == blocks[i]
  {
    OffsetAligned(start, blocks, i);
    BlockAt(start, blocks, i);
  }

  /** The padding before block `i` is zeros and shorter than 2048 bytes. */
  lemma {:induction false} PaddingIsZero(start: nat, blocks: seq<seq<u8>>, i: nat)
    requires i < |blocks|
    ensures var p, o := Placed(start, blocks), Offsets(start, blocks)[i];
            var end := start + |Placed(start, blocks[..i])|;
            end <= o < end + ALIGNMENT && o <= start + |p|
            && forall k :: end - start <= k < o - start ==> p[k] == 0
  {
    var p, o := Placed(start, blocks), Offsets(start, blocks)[i];
    var q := Placed(start, blocks[..i + 1]);
    PrefixLast(start, blocks, i);
    forall k | 0 <= k < |q| ensures p[k] == q[k] {
    }
  }

  /** Block `i` ends where the first `i + 1` blocks end. */
  lemma {:induction false} BlockEnd(start: nat, blocks: seq<seq<u8>>, i: nat)
    requires i < |blocks|
    ensures start + |Placed(start, blocks[..i + 1])| == Offsets(start, blocks)[i] + |blocks[i]|
  {
    PrefixLast(start, blocks, i);
  }

  /** Blocks appear in the order written: each starts after the previous one
      ends, so the offsets never decrease. */
  lemma {:induction false} OffsetsInOrder(start: nat, blocks: seq<seq<u8>>, i: nat, j: nat)
    requires i < j < |blocks|
    ensures start <= Offsets(start, blocks)[i]
    ensures Offsets(start, blocks)[i] + |blocks[i]| <= Offsets(start, blocks)[j]
    decreases j - i
  {
    OffsetAligned(start, blocks, i);
    BlockEnd(start, blocks, i);
    if j > i + 1 {
      OffsetsInOrder(start, blocks, i, j - 1);
      BlockEnd(start, blocks, j - 1);
    }
    assert start + |Placed(start, blocks[..j])| <= Offsets(start, blocks)[j] by {
      BlockAt(start, blocks, j);
    }
  }

  /** The smallest of the recorded offsets (`iter().min()` on a non-empty list). */
  function MinOffset(offsets: seq<nat>): (m: nat)
    requires |offsets| > 0
    ensures m in offsets
    ensures forall i :: 0 <= i < |offsets| ==> m <= offsets[i]
  {
    if |offsets| == 1 then offsets[0]
    else
      var rest := MinOffset(offsets[1..]);
      assert forall i :: 1 <= i < |offsets| ==> offsets[i] == offsets[1..][i - 1];
      if offsets[0] <= rest then offsets[0] else rest
  }

  /** Since the offsets never decrease, the smallest is the first block's. */
  lemma {:induction false} MinOffsetIsFirst(start: nat, blocks: seq<seq<u8>>)
    requires |blocks| > 0
    ensures MinOffset(Offsets(start, blocks)) == Offsets(start, blocks)[0]
  {
    var o := Offsets(start, blocks);
    forall j | 0 < j < |o| ensures o[0] <= o[j] {
      OffsetsInOrder(start, blocks, 0, j);
    }
  }

  // ---------------------------------------------------------------------------
  // Patching recorded fields

  /** The recorded sites are in increasing order, four bytes apart at least. */
  predicate Spaced(sites: seq<nat>)
  {
    forall i, j :: 0 <= i < j < |sites| ==> sites[i] + 4 <= sites[j]
  }

  /** `k` lies in none of the four-byte fields at `sites`. */
  predicate OutsideSites(k: nat, sites: seq<nat>)
  {
    forall j :: 0 <= j < |sites| ==> k < sites[j] || sites[j] + 4 <= k
  }

  /** Seeking to each site in turn and writing the matching value as a u32. */
  function PatchSites(data: seq<u8>, sites: seq<nat>, values: seq<nat>, little: bool): (r: seq<u8>)
    requires |sites| == |values|
    decreases |sites|
  {
    if |sites| == 0 then data
    else
      var n := |sites| - 1;
      Overwrite(PatchSites(data, sites[..n], values[..n], little), sites[n], U32Bytes(AsU32(values[n]), little))
  }

  /** Patching one more site: the first `j` patches, then the next one. */
  lemma {:induction false} PatchSitesNext(data: seq<u8>, sites: seq<nat>, values: seq<nat>, j: nat, little: bool)
    requires j < |sites| && j < |values|
    ensures PatchSites(data, sites[..j + 1], values[..j + 1], little)
         == Overwrite(PatchSites(data, sites[..j], values[..j], little), sites[j], U32Bytes(AsU32(values[j]), little))
  {
    assert sites[..j + 1][..j] == sites[..j] && values[..j + 1][..j] == values[..j];
  }

  /** When every site lies inside the data and the sites are spaced, patching
      keeps the length, leaves every byte outside the sites alone, and each
      site holds its own value, truncated to u32, in the given byte order. */
  lemma {:induction false} PatchSitesFacts(data: seq<u8>, sites: seq<nat>, values: seq<nat>, little: bool)
    requires |sites| == |values| && Spaced(sites)
    requires forall j :: 0 <= j < |sites| ==> sites[j] + 4 <= |data|
    ensures var r := PatchSites(data, sites, values, little);
            |r| == |data|
            && (forall k :: 0 <= k < |data| && OutsideSites(k, sites) ==> r[k] == data[k])
            && (forall j :: 0 <= j < |sites| ==> r[sites[j]..sites[j] + 4] == U32Bytes(AsU32(values[j]), little))
  {
    PatchSitesKeep(data, sites, values, little);
    PatchSitesHold(data, sites, values, little);
  }

  /** Patching keeps the length and every byte outside the sites. */
  lemma {:induction false} PatchSitesKeep(data: seq<u8>, sites: seq<nat>, values: seq<nat>, little: bool)
    requires |sites| == |values|
    requires forall j :: 0 <= j < |sites| ==> sites[j] + 4 <= |data|
    ensures var r := PatchSites(data, sites, values, little);
            |r| == |data| && forall k :: 0 <= k < |data| && OutsideSites(k, sites) ==> r[k] == data[k]
    decreases |sites|
  {
    if |sites| > 0 {
      var n := |sites| - 1;
      var s, vs := sites[..n], values[..n];
      PatchSitesKeep(data, s, vs, little);
      var prev := PatchSites(data, s, vs, little);
      var field := U32Bytes(AsU32(values[n]), little);
      OverwriteElsewhere(prev, sites[n], field);
      forall k | 0 <= k < |data| && OutsideSites(k, sites)
        ensures OutsideSites(k, s)
      {
        forall j | 0 <= j < |s| ensures k < s[j] || s[j] + 4 <= k {
          assert s[j] == sites[j];
        }
      }
    }
  }

  /** With spaced sites, each site ends up holding its own value. */
  lemma {:induction false} PatchSitesHold(data: seq<u8>, sites: seq<nat>, values: seq<nat>, little: bool)
    requires |sites| == |values| && Spaced(sites)
    requires forall j :: 0 <= j < |sites| ==> sites[j] + 4 <= |data|
    ensures var r := PatchSites(data, sites, values, little);
            |r| == |data| && forall j :: 0 <= j < |sites| ==> r[sites[j]..sites[j] + 4] == U32Bytes(AsU32(values[j]), little)
    decreases |sites|
  {
    if |sites| > 0 {
      var n := |sites| - 1;
      var s, vs := sites[..n], values[..n];
      PatchSitesHold(data, s, vs, little);
      var prev := PatchSites(data, s, vs, little);
      forall j | 0 <= j < n ensures prev[sites[j]..sites[j] + 4] == U32Bytes(AsU32(values[j]), little) {
        assert s[j] == sites[j] && vs[j] == values[j];
      }
      LastSiteStep(prev, sites, values, little);
    }
  }

  /** Writing the last site's value keeps every earlier site's value. */
  lemma LastSiteStep(prev: seq<u8>, sites: seq<nat>, values: seq<nat>, little: bool)
    requires |sites| == |values| > 0 && Spaced(sites) && sites[|sites| - 1] + 4 <= |prev|
    requires forall j :: 0 <= j < |sites| - 1 ==> prev[sites[j]..sites[j] + 4] == U32Bytes(AsU32(values[j]), little)
    ensures var r := Overwrite(prev, sites[|sites| - 1], U32Bytes(AsU32(values[|sites| - 1]), little));
            forall j :: 0 <= j < |sites| ==> r[sites[j]..sites[j] + 4] == U32Bytes(AsU32(values[j]), little)
  {
    var n := |sites| - 1;
    var field := U32Bytes(AsU32(values[n]), little);
    forall j | 0 <= j < n
      ensures Overwrite(prev, sites[n], field)[sites[j]..sites[j] + 4] == U32Bytes(AsU32(values[j]), little)
    {
      OverwriteBefore(prev, sites[n], field, sites[j], sites[j] + 4);
    }
  }
}
