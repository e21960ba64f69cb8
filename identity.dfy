/** Archive identity and the packed version word (fang/src/mst/mod.rs:83-128). */
module Identity {
  import opened Bytes

  type Magic = s: seq<u8> | |s| == 4 witness [0, 0, 0, 0]

  /** "FANG" and "GNAF" in ASCII. */
  const FANG: Magic := [0x46, 0x41, 0x4E, 0x47]
  const GNAF: Magic := [0x47, 0x4E, 0x41, 0x46]

  /** The 4-byte magic at the start of an archive. */
  datatype MstIdentifier = FangLittleEndian | FangBigEndian | Unknown(magic: Magic)

  /** `MstIdentifier::is_little`: only the big-endian magic selects big-endian. */
  function IsLittle(id: MstIdentifier): bool
  {
    match id
    case FangLittleEndian => true
    case FangBigEndian => false
    case Unknown(_) => true
  }

  function IdentifierBytes(id: MstIdentifier): Magic
  {
    match id
    case FangLittleEndian => FANG
    case FangBigEndian => GNAF
    case Unknown(m) => m
  }

  /** binrw tries the two magics in order and keeps any other 4 bytes as `Unknown`. */
  function ReadIdentifier(b: Magic): MstIdentifier
  {
    if b == FANG then FangLittleEndian
    else if b == GNAF then FangBigEndian
    else Unknown(b)
  }

  /** The byte order read from a magic: big-endian exactly for "GNAF"; the magic
      is written back unchanged. */
  lemma ReadIdentifierFacts(b: Magic)
    ensures IsLittle(ReadIdentifier(b)) <==> b != GNAF
    ensures IdentifierBytes(ReadIdentifier(b)) == b
  {
  }

  /** An identifier whose `Unknown` magic is not one of the two known ones reads back as itself. */
  lemma IdentifierRoundTrip(id: MstIdentifier)
    requires id.Unknown? ==> id.magic != FANG && id.magic != GNAF
    ensures ReadIdentifier(IdentifierBytes(id)) == id
  {
  }

  type Bit = x: int | 0 <= x < 2
  type TwoBits = x: int | 0 <= x < 4

  /** The fields of the version word, low bits first: patch (bits 0-7), minor
      (8-15), major (16-23), xbox (24), an unused bit (25), pc (26), tools (27),
      gc (28), ps2 (29) and two unused bits (30-31). */
  datatype VersionFields = VersionFields(
    patch: u8, minor: u8, major: u8,
    xbox: Bit, unused25: Bit, pc: Bit, tools: Bit, gc: Bit, ps2: Bit,
    unused30: TwoBits)

  /** Splits a word into its fields, peeling the low bits off one field at a time. */
  function Unpack(w: u32): VersionFields
  {
    var patch, w1 := w % 0x100, w / 0x100;
    var minor, w2 := w1 % 0x100, w1 / 0x100;
    var major, w3 := w2 % 0x100, w2 / 0x100;
    var xbox, w4 := w3 % 2, w3 / 2;
    var unused25, w5 := w4 % 2, w4 / 2;
    var pc, w6 := w5 % 2, w5 / 2;
    var tools, w7 := w6 % 2, w6 / 2;
    var gc, w8 := w7 % 2, w7 / 2;
    var ps2, unused30 := w8 % 2, w8 / 2;
    VersionFields(patch, minor, major, xbox, unused25, pc, tools, gc, ps2, unused30)
  }

  function Pack(f: VersionFields): u32
  {
    var hi: int := f.xbox + 2 * (f.unused25 + 2 * (f.pc + 2 * (f.tools + 2 * (f.gc + 2 * (f.ps2 + 2 * f.unused30)))));
    f.patch + 0x100 * (f.minor + 0x100 * (f.major + 0x100 * hi))
  }

  /** Packing the fields of a word gives the word back: no bit is lost, so a
      version written after it was read is the version that was read. */
  lemma PackUnpack(w: u32)
    ensures Pack(Unpack(w)) == w
  {
  }

  lemma UnpackPack(f: VersionFields)
    ensures Unpack(Pack(f)) == f
  {
    var t6: int := f.ps2 + 2 * f.unused30;
    var t5: int := f.gc + 2 * t6;
    var t4: int := f.tools + 2 * t5;
    var t3: int := f.pc + 2 * t4;
    var t2: int := f.unused25 + 2 * t3;
    var hi: int := f.xbox + 2 * t2;
    var m2: int := f.major + 0x100 * hi;
    var m1: int := f.minor + 0x100 * m2;
    var w: int := f.patch + 0x100 * m1;
    assert w == Pack(f);
    DivOf(w, f.patch, m1, 0x100);
    DivOf(m1, f.minor, m2, 0x100);
    DivOf(m2, f.major, hi, 0x100);
    DivOf(hi, f.xbox, t2, 2);
    DivOf(t2, f.unused25, t3, 2);
    DivOf(t3, f.pc, t4, 2);
    DivOf(t4, f.tools, t5, 2);
    DivOf(t5, f.gc, t6, 2);
    DivOf(t6, f.ps2, f.unused30, 2);
  }

  lemma DivStep(r: int, q: int, d: int)
    requires 0 <= r < d
    ensures (r + d * q) % d == r && (r + d * q) / d == q
  {
    var x := r + d * q;
    var k := q - x / d;
    assert d * k == x % d - r;
  }

  lemma DivOf(x: int, r: int, q: int, d: int)
    requires 0 <= r < d && x == r + d * q
    ensures x % d == r && x / d == q
  {
    DivStep(r, q, d);
  }

  lemma DivDiv(x: nat, a: nat, b: nat)
    requires a > 0 && b > 0
    ensures x / a / b == x / (a * b)
  {
    var q1, r1 := x / a, x % a;
    var q2, r2 := q1 / b, q1 % b;
    assert x == a * (b * q2 + r2) + r1;
    assert x == (a * b) * q2 + (a * r2 + r1);
    assert a * r2 + r1 < a * b by {
      assert a * r2 <= a * (b - 1);
    }
    DivStep(a * r2 + r1, q2, a * b);
  }

  /** `MstVersion`: the version word as read, in the archive's byte order. */
  datatype MstVersion = MstVersion(bits: u32)
  {
    function Fields(): VersionFields { Unpack(bits) }
    function Patch(): u8 { Fields().patch }
    function Minor(): u8 { Fields().minor }
    function Major(): u8 { Fields().major }
    function Xbox(): Bit { Fields().xbox }
    function Pc(): Bit { Fields().pc }
    function Tools(): Bit { Fields().tools }
    function Gc(): Bit { Fields().gc }
    function Ps2(): Bit { Fields().ps2 }

    /** `set_minor`: replaces the minor field and no other bit. */
    function SetMinor(m: u8): (r: MstVersion)
      ensures r.Fields() == Fields().(minor := m)
    {
      UnpackPack(Fields().(minor := m));
      MstVersion(Pack(Fields().(minor := m)))
    }

    /** `entry_name_length`: the width of the filename fields in the entry table. */
    function EntryNameLength(): nat
    {
      if Ps2() == 1 && Major() == 1 && Minor() == 8 then 20 else 16
    }
  }

  /** Each field sits at its documented bit position of the word. */
  lemma BitLayout(v: MstVersion)
    ensures v.Patch() == v.bits % 0x100
    ensures v.Minor() == (v.bits / 0x100) % 0x100
    ensures v.Major() == (v.bits / 0x1_0000) % 0x100
    ensures v.Xbox() == (v.bits / 0x100_0000) % 2
    ensures v.Pc() == (v.bits / 0x400_0000) % 2
    ensures v.Tools() == (v.bits / 0x800_0000) % 2
    ensures v.Gc() == (v.bits / 0x1000_0000) % 2
    ensures v.Ps2() == (v.bits / 0x2000_0000) % 2
  {
    var w: nat := v.bits;
    DivDiv(w, 0x100, 0x100);
    DivDiv(w, 0x1_0000, 0x100);
    DivDiv(w, 0x100_0000, 2);
    DivDiv(w, 0x200_0000, 2);
    DivDiv(w, 0x400_0000, 2);
    DivDiv(w, 0x800_0000, 2);
    DivDiv(w, 0x1000_0000, 2);
  }

  /** The version word in the archive: a u32 in the archive's byte order. */
  function VersionBytes(v: MstVersion, little: bool): (r: seq<u8>)
    ensures |r| == 4
  {
    U32Bytes(v.bits, little)
  }

  function ReadVersion(b: seq<u8>, little: bool): MstVersion
    requires |b| == 4
  {
    MstVersion(ReadU32(b, little))
  }

  /** Reading a version word and writing it back in the same byte order
      reproduces its four bytes, for both byte orders. */
  lemma VersionRewrite(b: seq<u8>, little: bool)
    requires |b| == 4
    ensures VersionBytes(ReadVersion(b, little), little) == b
  {
    U32BytesOfRead(b, little);
  }

  /** The four table revisions the builder can target. */
  datatype MstVersionKnown = V180Ps2 | V180 | V170 | V160

  function KnownMinor(k: MstVersionKnown): u8
  {
    match k
    case V180Ps2 => 8
    case V180 => 8
    case V170 => 7
    case V160 => 6
  }

  /** `MstPlatformKnown` is not part of this model. A platform stands for what the
      builder takes from it: the identifier (`MstIdentifier::from_known`) and the
      version bits that `MstVersion::from_known` does not set from the revision. */
  datatype MstPlatformKnown = MstPlatformKnown(identifier: MstIdentifier, base: MstVersion)

  function IdentifierFromKnown(p: MstPlatformKnown): MstIdentifier
  {
    p.identifier
  }

  /** `MstVersion::from_known`, which is not part of this model, as it is
      assumed to work: major 1, the revision's minor, the ps2 bit set exactly
      for the PS2 revision; every other bit comes from the platform. */
  function VersionFromKnown(k: MstVersionKnown, p: MstPlatformKnown): (v: MstVersion)
    ensures v.Major() == 1 && v.Minor() == KnownMinor(k)
    ensures v.Ps2() == 1 <==> k == V180Ps2
    ensures v.Fields().(major := 1, minor := KnownMinor(k), ps2 := 0)
         == p.base.Fields().(major := 1, minor := KnownMinor(k), ps2 := 0)
  {
    var f := p.base.Fields().(major := 1, minor := KnownMinor(k), ps2 := if k == V180Ps2 then 1 else 0);
    UnpackPack(f);
    MstVersion(Pack(f))
  }
}
