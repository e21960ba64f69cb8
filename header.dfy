/** The fixed-size archive header (fang/src/mst/header.rs): 25 u32 words in a
    fixed order, each in the archive's byte order. */
module Header {
  import opened Bytes

  /** The ten compiler stamps, in the order they are stored. */
  datatype MstCompilers = MstCompilers(
    tga: u32, ape: u32, mtx: u32, csv: u32, fnt: u32,
    sma: u32, gt: u32, wvb: u32, fpr: u32, cam: u32)

  type Reserved = s: seq<u32> | |s| == 9 witness [0, 0, 0, 0, 0, 0, 0, 0, 0]

  datatype MstHeader = MstHeader(
    bytesInFile: u32,
    numEntries: u32,
    numFreeEntries: u32,
    numSupportEntries: u32,
    numFreeSupportEntries: u32,
    dataOffset: u32,
    compilers: MstCompilers,
    reserved: Reserved)

  const HEADER_SIZE: nat := 100

  /** The header's words in storage order. */
  function Words(h: MstHeader): (ws: seq<u32>)
    ensures |ws| == 25
  {
    var c := h.compilers;
    [h.bytesInFile, h.numEntries, h.numFreeEntries, h.numSupportEntries, h.numFreeSupportEntries,
     h.dataOffset,
     c.tga, c.ape, c.mtx, c.csv, c.fnt, c.sma, c.gt, c.wvb, c.fpr, c.cam]
    + h.reserved
  }

  function FromWords(ws: seq<u32>): MstHeader
    requires |ws| == 25
  {
    MstHeader(ws[0], ws[1], ws[2], ws[3], ws[4], ws[5],
              MstCompilers(ws[6], ws[7], ws[8], ws[9], ws[10], ws[11], ws[12], ws[13], ws[14], ws[15]),
              ws[16..])
  }

  lemma WordsRoundTrip(h: MstHeader, ws: seq<u32>)
    requires |ws| == 25
    ensures FromWords(Words(h)) == h
    ensures Words(FromWords(ws)) == ws
  {
  }

  /** A run of u32 words, each in the given byte order. */
  function WordsBytes(ws: seq<u32>, little: bool): (r: seq<u8>)
    ensures |r| == 4 * |ws|
  {
    if ws == [] then [] else U32Bytes(ws[0], little) + WordsBytes(ws[1..], little)
  }

  function ReadWords(b: seq<u8>, little: bool): (ws: seq<u32>)
    requires |b| % 4 == 0
    ensures 4 * |ws| == |b|
  {
    if b == [] then [] else [ReadU32(b[..4], little)] + ReadWords(b[4..], little)
  }

  /** Word `i` occupies bytes `4i .. 4i+4`. */
  lemma {:induction false} WordAt(ws: seq<u32>, i: nat, little: bool)
    requires i < |ws|
    ensures WordsBytes(ws, little)[4 * i..4 * i + 4] == U32Bytes(ws[i], little)
  {
    if i > 0 {
      WordAt(ws[1..], i - 1, little);
      assert WordsBytes(ws, little)[4 * i..4 * i + 4] == WordsBytes(ws[1..], little)[4 * (i - 1)..4 * (i - 1) + 4];
    }
  }

  lemma {:induction false} ReadWordsRoundTrip(ws: seq<u32>, little: bool)
    ensures ReadWords(WordsBytes(ws, little), little) == ws
  {
    if ws != [] {
      var b := WordsBytes(ws, little);
      assert b[..4] == U32Bytes(ws[0], little);
      assert b[4..] == WordsBytes(ws[1..], little);
      U32RoundTrip(ws[0], little);
      ReadWordsRoundTrip(ws[1..], little);
    }
  }

  lemma {:induction false} WordsRewrite(b: seq<u8>, little: bool)
    requires |b| % 4 == 0
    ensures WordsBytes(ReadWords(b, little), little) == b
  {
    if b != [] {
      var ws := ReadWords(b, little);
      assert ws[1..] == ReadWords(b[4..], little);
      U32BytesOfRead(b[..4], little);
      WordsRewrite(b[4..], little);
      assert b == b[..4] + b[4..];
    }
  }

  /** The header as stored: 100 bytes. */
  function HeaderBytes(h: MstHeader, little: bool): (r: seq<u8>)
    ensures |r| == HEADER_SIZE
  {
    WordsBytes(Words(h), little)
  }

  function ReadHeader(b: seq<u8>, little: bool): MstHeader
    requires |b| == HEADER_SIZE
  {
    FromWords(ReadWords(b, little))
  }

  /** Every field, reserved words included, reads back as written. */
  lemma HeaderRoundTrip(h: MstHeader, little: bool)
    ensures ReadHeader(HeaderBytes(h, little), little) == h
  {
    ReadWordsRoundTrip(Words(h), little);
    WordsRoundTrip(h, Words(h));
  }

  /** A header read and written back in the same byte order reproduces its
      100 bytes, reserved words included. */
  lemma HeaderRewrite(b: seq<u8>, little: bool)
    requires |b| == HEADER_SIZE
    ensures HeaderBytes(ReadHeader(b, little), little) == b
  {
    var ws := ReadWords(b, little);
    WordsRoundTrip(FromWords(ws), ws);
    WordsRewrite(b, little);
  }

  /** Where the fields sit in the header: the file size first, then the four
      counts (live, free, support, free support), then the data offset. */
  lemma HeaderFieldPositions(h: MstHeader, little: bool)
    ensures ReadU32(HeaderBytes(h, little)[0..4], little) == h.bytesInFile
    ensures ReadU32(HeaderBytes(h, little)[4..8], little) == h.numEntries
    ensures ReadU32(HeaderBytes(h, little)[8..12], little) == h.numFreeEntries
    ensures ReadU32(HeaderBytes(h, little)[12..16], little) == h.numSupportEntries
    ensures ReadU32(HeaderBytes(h, little)[16..20], little) == h.numFreeSupportEntries
    ensures ReadU32(HeaderBytes(h, little)[20..24], little) == h.dataOffset
  {
    var ws := Words(h);
    forall i | 0 <= i < 6
      ensures ReadU32(HeaderBytes(h, little)[4 * i..4 * i + 4], little) == ws[i]
    {
      WordAt(ws, i, little);
      U32RoundTrip(ws[i], little);
    }
    assert ReadU32(HeaderBytes(h, little)[4 * 0..4 * 0 + 4], little) == ws[0];
    assert ReadU32(HeaderBytes(h, little)[4 * 1..4 * 1 + 4], little) == ws[1];
    assert ReadU32(HeaderBytes(h, little)[4 * 2..4 * 2 + 4], little) == ws[2];
    assert ReadU32(HeaderBytes(h, little)[4 * 3..4 * 3 + 4], little) == ws[3];
    assert ReadU32(HeaderBytes(h, little)[4 * 4..4 * 4 + 4], little) == ws[4];
    assert ReadU32(HeaderBytes(h, little)[4 * 5..4 * 5 + 4], little) == ws[5];
  }
}
