/** Byte-order aware integer codec: what `to_le_bytes`, `to_be_bytes` and binrw's
    integer readers do, and how a seekable output overwrites what is already there. */
module Bytes {

  type u8 = x: int | 0 <= x < 0x100
  type u16 = x: int | 0 <= x < 0x1_0000
  type u32 = x: int | 0 <= x < 0x1_0000_0000

  /** Rust's `x as u32` for a non-negative `x`: the low 32 bits. */
  function AsU32(x: nat): (r: u32)
    ensures x < 0x1_0000_0000 ==> r == x
    ensures (x - r) % 0x1_0000_0000 == 0
  {
    x % 0x1_0000_0000
  }

  function Zeros(n: nat): (r: seq<u8>)
    ensures |r| == n
    ensures forall i :: 0 <= i < n ==> r[i] == 0
  {
    seq(n, _ => 0)
  }

  /** The two bytes of `v`, least significant first when `little`. */
  function U16Bytes(v: u16, little: bool): (r: seq<u8>)
    ensures |r| == 2
  {
    var lo, hi := v % 0x100, v / 0x100;
    if little then [lo, hi] else [hi, lo]
  }

  function ReadU16(b: seq<u8>, little: bool): u16
    requires |b| == 2
  {
    var b0: int, b1: int := b[0], b[1];
    if little then b0 + 0x100 * b1 else b1 + 0x100 * b0
  }

  /** The four bytes of `v`, least significant first when `little`. */
  function U32Bytes(v: u32, little: bool): (r: seq<u8>)
    ensures |r| == 4
  {
    var b0, v1 := v % 0x100, v / 0x100;
    var b1, v2 := v1 % 0x100, v1 / 0x100;
    var b2, b3 := v2 % 0x100, v2 / 0x100;
    if little then [b0, b1, b2, b3] else [b3, b2, b1, b0]
  }

  function ReadU32(b: seq<u8>, little: bool): u32
    requires |b| == 4
  {
    var b0: int, b1: int, b2: int, b3: int := b[0], b[1], b[2], b[3];
    if little then b0 + 0x100 * (b1 + 0x100 * (b2 + 0x100 * b3))
    else b3 + 0x100 * (b2 + 0x100 * (b1 + 0x100 * b0))
  }

  lemma U16RoundTrip(v: u16, little: bool)
    ensures ReadU16(U16Bytes(v, little), little) == v
  {
  }

  lemma U16BytesOfRead(b: seq<u8>, little: bool)
    requires |b| == 2
    ensures U16Bytes(ReadU16(b, little), little) == b
  {
  }

  lemma U32RoundTrip(v: u32, little: bool)
    ensures ReadU32(U32Bytes(v, little), little) == v
  {
  }

  lemma U32BytesOfRead(b: seq<u8>, little: bool)
    requires |b| == 4
    ensures U32Bytes(ReadU32(b, little), little) == b
  {
    var v := ReadU32(b, little);
    var lo: int := if little then b[0] else b[3];
    var m1: int := if little then b[1] else b[2];
    var m2: int := if little then b[2] else b[1];
    var hi: int := if little then b[3] else b[0];
    assert v == lo + 0x100 * (m1 + 0x100 * (m2 + 0x100 * hi));
    assert v % 0x100 == lo && v / 0x100 == m1 + 0x100 * (m2 + 0x100 * hi);
    assert (v / 0x100) % 0x100 == m1 && (v / 0x100) / 0x100 == m2 + 0x100 * hi;
  }

  /** Writing `bytes` at position `pos` of a seekable output that holds `data`:
      the bytes replace what is there, extend the output past its end, and a
      gap between the end and `pos` reads as zeros. */
  function Overwrite(data: seq<u8>, pos: nat, bytes: seq<u8>): (r: seq<u8>)
    ensures |r| == if pos + |bytes| <= |data| then |data| else pos + |bytes|
    ensures r[pos..pos + |bytes|] == bytes
  {
    var head := if pos <= |data| then data[..pos] else data + Zeros(pos - |data|);
    var tail := if pos + |bytes| <= |data| then data[pos + |bytes|..] else [];
    head + bytes + tail
  }

  /** Outside the written range, the output keeps its old bytes, and zeros fill
      the gap past its old end. */
  lemma OverwriteElsewhere(data: seq<u8>, pos: nat, bytes: seq<u8>)
    ensures var r := Overwrite(data, pos, bytes);
            forall k :: 0 <= k < |r| && (k < pos || pos + |bytes| <= k) ==>
              r[k] == if k < |data| then data[k] else 0
  {
  }

  /** A slice that ends before the written bytes is unchanged. */
  lemma OverwriteBefore(data: seq<u8>, pos: nat, bytes: seq<u8>, lo: nat, hi: nat)
    requires lo <= hi <= pos <= |data|
    ensures Overwrite(data, pos, bytes)[lo..hi] == data[lo..hi]
  {
    var head := data[..pos];
    var tail := if pos + |bytes| <= |data| then data[pos + |bytes|..] else [];
    assert Overwrite(data, pos, bytes) == (head + bytes) + tail;
    SliceLeft(head + bytes, tail, lo, hi);
    SliceLeft(head, bytes, lo, hi);
  }

  /** Writing at the end of the output appends. */
  lemma OverwriteAtEnd(data: seq<u8>, bytes: seq<u8>)
    ensures Overwrite(data, |data|, bytes) == data + bytes
  {
  }

  /** Writing inside the output keeps its length and reads back what was written. */
  lemma OverwriteU32Inside(data: seq<u8>, pos: nat, v: u32, little: bool)
    requires pos + 4 <= |data|
    ensures |Overwrite(data, pos, U32Bytes(v, little))| == |data|
    ensures ReadU32(Overwrite(data, pos, U32Bytes(v, little))[pos..pos + 4], little) == v
  {
    U32RoundTrip(v, little);
  }

  /** A slice that lies inside the right operand of a concatenation. */
  lemma SliceRight<T>(x: seq<T>, y: seq<T>, lo: nat, hi: nat)
    requires |x| <= lo <= hi <= |x| + |y|
    ensures (x + y)[lo..hi] == y[lo - |x|..hi - |x|]
  {
  }

  /** A slice that lies inside the left operand of a concatenation. */
  lemma SliceLeft<T>(x: seq<T>, y: seq<T>, lo: nat, hi: nat)
    requires lo <= hi <= |x|
    ensures (x + y)[lo..hi] == x[lo..hi]
  {
  }

  /** Concatenation regrouped. */
  lemma AppendAssoc<T>(a: seq<T>, b: seq<T>, c: seq<T>)
    ensures a + (b + c) == a + b + c
  {
  }

  lemma AppendFour<T>(d: seq<T>, a: seq<T>, b: seq<T>, c: seq<T>, f: seq<T>)
    ensures d + a + b + c + f == d + (a + b + c + f)
  {
  }

  lemma AppendFive<T>(a: seq<T>, b: seq<T>, c: seq<T>, d: seq<T>, f: seq<T>)
    ensures a + b + c + d + f == a + (b + (c + (d + f)))
  {
    AppendAssoc(c, d, f);
    AppendAssoc(b, c, d + f);
    AppendAssoc(a, b, c + (d + f));
    AppendAssoc(a + b, c, d + f);
    AppendAssoc(a + b + c, d, f);
  }

  /** Two concatenations with equally long left parts are equal exactly when both parts are. */
  lemma AppendCancel<T>(a: seq<T>, b: seq<T>, c: seq<T>, d: seq<T>)
    requires |a| == |c|
    ensures a + b == c + d <==> a == c && b == d
  {
    if a + b == c + d {
      assert a == (a + b)[..|a|] && c == (c + d)[..|a|];
      assert b == (a + b)[|a|..] && d == (c + d)[|a|..];
    }
  }

  /** The two parts of a concatenation, cut back out of it. */
  lemma SplitFront<T>(a: seq<T>, b: seq<T>, s: seq<T>)
    requires s == a + b
    ensures s[..|a|] == a && s[|a|..] == b
  {
  }

  /** A sequence is its three slices at `i` and `j` put back together. */
  lemma SplitThree<T>(s: seq<T>, i: nat, j: nat)
    requires i <= j <= |s|
    ensures s == s[..i] + s[i..j] + s[j..]
  {
  }

  /** Nothing in front changes nothing. */
  lemma AppendToEmpty<T>(a: seq<T>)
    ensures [] + a == a
  {
  }
}
