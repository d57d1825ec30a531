/** The formats arc writes and reads, held against the bytes their standards give. */
module ArcFormats {

  import opened Wrappers
  import opened Bits
  import opened Lz
  import opened Inflate
  import ArcCrc
  import Deflate
  import DeflateRun
  import FixedCode
  import Huffman
  import LzProof
  import Zip

  // ----- zip -----

  function Two(z: seq<Byte>, i: nat): nat
    requires i + 2 <= |z|
  {
    z[i] as int + 256 * z[i + 1] as int
  }

  function Four(z: seq<Byte>, i: nat): nat
    requires i + 4 <= |z|
  {
    z[i] as int + 256 * z[i + 1] as int + 65536 * z[i + 2] as int + 16777216 * z[i + 3] as int
  }

  lemma {:induction false} TwoIs(z: seq<Byte>, i: nat, v: nat)
    requires i + 2 <= |z| && z[i..i + 2] == Zip.Le16(v) && v < 0x1_0000
    ensures Two(z, i) == v
  {
    Zip.Get16Back(z, i, v);
  }

  lemma {:induction false} FourIs(z: seq<Byte>, i: nat, v: nat)
    requires i + 4 <= |z| && z[i..i + 4] == Zip.Le32(v) && v < 0x1_0000_0000
    ensures Four(z, i) == v
  {
    Zip.Get32Back(z, i, v);
  }

  ghost predicate InRange(e: Zip.ZipEntry) {
    && |e.path| < 0x1_0000
    && e.crc < 0x1_0000_0000
    && e.packed < 0x1_0000_0000
    && e.size < 0x1_0000_0000
    && e.mode < 0x1_0000
    && e.offset < 0x1_0000_0000
  }

  /** The shared fields of a record and a directory entry, from byte i on. */
  ghost predicate SharedAt(h: seq<Byte>, i: nat, e: Zip.ZipEntry)
    requires i + 22 <= |h|
  {
    && Two(h, i) == (if e.stored then 0 else 8)
    && Four(h, i + 6) == e.crc
    && Four(h, i + 10) == e.packed
    && Four(h, i + 14) == e.size
    && Two(h, i + 18) == |e.path|
    && Two(h, i + 20) == 0
  }

  lemma {:induction false} SharedParts(e: Zip.ZipEntry)
    ensures var s := Zip.Shared(e);
      && s[0..2] == Zip.Le16(if e.stored then 0 else 8)
      && s[6..10] == Zip.Le32(e.crc)
      && s[10..14] == Zip.Le32(e.packed)
      && s[14..18] == Zip.Le32(e.size)
      && s[18..20] == Zip.Le16(|e.path|)
      && s[20..22] == Zip.Le16(0)
  {
  }

  lemma {:induction false} SharedStands(h: seq<Byte>, i: nat, e: Zip.ZipEntry)
    requires i + 22 <= |h| && h[i..i + 22] == Zip.Shared(e) && InRange(e)
    ensures SharedAt(h, i, e)
  {
    hide Zip.Le16, Zip.Le32, Zip.Shared, Two, Four;
    SharedParts(e);
    Zip.Within(h, i, Zip.Shared(e), 0, 2);
    Zip.Within(h, i, Zip.Shared(e), 6, 10);
    Zip.Within(h, i, Zip.Shared(e), 10, 14);
    Zip.Within(h, i, Zip.Shared(e), 14, 18);
    Zip.Within(h, i, Zip.Shared(e), 18, 20);
    Zip.Within(h, i, Zip.Shared(e), 20, 22);
    TwoIs(h, i, if e.stored then 0 else 8);
    FourIs(h, i + 6, e.crc);
    FourIs(h, i + 10, e.packed);
    FourIs(h, i + 14, e.size);
    TwoIs(h, i + 18, |e.path|);
    TwoIs(h, i + 20, 0);
  }

  /** The local header of the zip format, byte by byte: signature, method, checksum, both sizes and
      the lengths of the name and the extra field. */
  lemma {:induction false} LocalHeaderBytes(e: Zip.ZipEntry)
    requires InRange(e)
    ensures var h := Zip.LocalHeader(e);
      && h[0..8] == [0x50, 0x4b, 3, 4, 20, 0, 0, 0]
      && SharedAt(h, 8, e)
  {
    var h := Zip.LocalHeader(e);
    assert h[0..8] == Zip.Le32(Zip.LOCAL_SIGNATURE) + Zip.Le16(20) + Zip.Le16(0);
    assert h[8..30] == Zip.Shared(e);
    SharedStands(h, 8, e);
  }

  /** The same for a directory entry, with the permission bits and the offset of the record. */
  lemma {:induction false} CentralHeaderBytes(e: Zip.ZipEntry)
    requires InRange(e)
    ensures var h := Zip.CentralHeader(e);
      && h[0..10] == [0x50, 0x4b, 1, 2, 20, 0, 20, 0, 0, 0]
      && SharedAt(h, 10, e)
      && h[32..38] == [0, 0, 0, 0, 0, 0]
      && Four(h, 38) == e.mode * 65536
      && Four(h, 42) == e.offset
  {
    hide Zip.Shared, Zip.Le16, Zip.Le32, Zip.CentralHeader, SharedAt, Four;
    var h := Zip.CentralHeader(e);
    CentralConstants(e);
    Zip.CentralSlices(e);
    SharedStands(h, 10, e);
    FourIs(h, 38, e.mode * 65536);
    FourIs(h, 42, e.offset);
  }

  lemma {:induction false} CentralConstants(e: Zip.ZipEntry)
    ensures var h := Zip.CentralHeader(e);
      h[0..10] == [0x50, 0x4b, 1, 2, 20, 0, 20, 0, 0, 0] && h[32..38] == [0, 0, 0, 0, 0, 0]
  {
    hide Zip.Shared;
    var h := Zip.CentralHeader(e);
    assert h[0..10] == Zip.Le32(Zip.CENTRAL_SIGNATURE) + Zip.Le16(20) + Zip.Le16(20) + Zip.Le16(0);
    assert h[32..38] == Zip.Le16(0) + Zip.Le16(0) + Zip.Le16(0);
  }

  /** The record at the end: how many entries, how long the directory is and where it starts. */
  lemma {:induction false} EndRecordBytes(count: nat, size: nat, start: nat)
    requires count < 0x1_0000 && size < 0x1_0000_0000 && start < 0x1_0000_0000
    ensures var h := Zip.EndRecord(count, size, start);
      && h[0..8] == [0x50, 0x4b, 5, 6, 0, 0, 0, 0]
      && Two(h, 8) == Two(h, 10) == count
      && Four(h, 12) == size
      && Four(h, 16) == start
      && h[20..22] == [0, 0]
  {
    var h := Zip.EndRecord(count, size, start);
    assert h[0..8] == Zip.Le32(Zip.END_SIGNATURE) + Zip.Le16(0) + Zip.Le16(0);
    assert h[8..10] == Zip.Le16(count) && h[10..12] == Zip.Le16(count);
    assert h[12..16] == Zip.Le32(size) && h[16..20] == Zip.Le32(start) && h[20..22] == Zip.Le16(0);
    TwoIs(h, 8, count);
    TwoIs(h, 10, count);
    FourIs(h, 12, size);
    FourIs(h, 16, start);
  }

  // ----- deflate -----

  function TwoTo(n: nat): nat {
    if n == 0 then 1 else 2 * TwoTo(n - 1)
  }

  /** The tables of section 3.2.5 of RFC 1951: lengths from 3 and distances from 1, with no gap and
      no overlap; the number of extra bits grows by one every four lengths and every two distances;
      the longest length has a symbol of its own. */
  lemma {:induction false} LengthTable(i: nat)
    requires i < 28
    ensures LEN_BASE[0] == 3 && LEN_BASE[28] == 258 && LEN_EXTRA[28] == 0
    ensures LEN_EXTRA[i] == if i < 8 then 0 else i / 4 - 1
    ensures i < 27 ==> LEN_BASE[i + 1] == LEN_BASE[i] + TwoTo(LEN_EXTRA[i])
    ensures i == 27 ==> LEN_BASE[i] + TwoTo(LEN_EXTRA[i]) == 259
  {
    hide TwoTo;
    Powers();
  }

  lemma {:induction false} DistanceTable(i: nat)
    requires i < 30
    ensures DIST_BASE[0] == 1 && DIST_BASE[29] + TwoTo(DIST_EXTRA[29]) == 32769
    ensures DIST_EXTRA[i] == if i < 4 then 0 else i / 2 - 1
    ensures i < 29 ==> DIST_BASE[i + 1] == DIST_BASE[i] + TwoTo(DIST_EXTRA[i])
  {
    hide TwoTo;
    Powers();
  }

  lemma {:induction false} Powers()
    ensures TwoTo(0) == 1 && TwoTo(1) == 2 && TwoTo(2) == 4 && TwoTo(3) == 8 && TwoTo(4) == 16 && TwoTo(5) == 32
    ensures TwoTo(6) == 64 && TwoTo(7) == 128 && TwoTo(8) == 256 && TwoTo(9) == 512 && TwoTo(10) == 1024
    ensures TwoTo(11) == 2048 && TwoTo(12) == 4096 && TwoTo(13) == 8192
  {
    assert TwoTo(5) == 2 * TwoTo(4) == 4 * TwoTo(3) == 8 * TwoTo(2) == 16 * TwoTo(1);
    assert TwoTo(9) == 2 * TwoTo(8) == 4 * TwoTo(7) == 8 * TwoTo(6) == 16 * TwoTo(5);
    assert TwoTo(13) == 2 * TwoTo(12) == 4 * TwoTo(11) == 8 * TwoTo(10) == 16 * TwoTo(9);
  }

  /** A stream of the fixed code, as every deflate writes it: one literal and the end of the block. */
  lemma {:induction false} KnownStream()
    ensures InflateBytes([0x4b, 0x04, 0x00]) == Whole([97])
  {
    hide Low, Code, ByteBits, InflateBytes, SymbolBits, LzProof.BlockBits;
    var ts, out := [Literal(97)], [0x4b, 0x04, 0x00];
    LetterBits();
    DeflateRun.EndBits();
    DeflateRun.HeaderBits();
    KnownBits();
    OneToken(ts[0]);
    assert Deflate.Covers(ts, [97], 1);
    assert DeflateRun.FixedBits(ts) + Zeros(6) == [
      true, true, false, true, false, false, true, false,
      false, false, true, false, false, false, false, false,
      false, false, false, false, false, false, false, false];
    DeflateRun.FixedInflates(out, [97], ts, 6, []);
    assert out + [] == out;
  }

  lemma {:induction false} LetterBits()
    ensures SymbolBits(FixedCode.LITERALS, 97) == [true, false, false, true, false, false, false, true]
    ensures Code(0, 7) == [false, false, false, false, false, false, false]
  {
    hide Huffman.CodeOf;
    FixedCode.LiteralCode(97);
    FixedCode.LiteralsBefore(97);
  }

  lemma {:induction false} KnownBits()
    ensures ByteBits([0x4b, 0x04, 0x00]) == [
      true, true, false, true, false, false, true, false,
      false, false, true, false, false, false, false, false,
      false, false, false, false, false, false, false, false]
  {
    hide Low;
    var s := [0x4b, 0x04, 0x00];
    FirstByte();
    OtherBytes();
    assert s[1..] == [0x04, 0x00] && s[1..][1..] == [0x00] && s[1..][1..][1..] == [];
  }

  lemma {:induction false} LowStep(v: nat, n: nat, low: bool, rest: nat)
    requires n > 0 && low == (v % 2 == 1) && rest == v / 2
    ensures Low(v, n) == [low] + Low(rest, n - 1)
  {
  }

  lemma {:induction false} LowNone(v: nat)
    ensures Low(v, 0) == []
  {
  }

  lemma {:induction false} FirstByte()
    ensures Low(0x4b, 8) == [true, true, false, true, false, false, true, false]
  {
    hide Low;
    LowStep(75, 8, true, 37);
    LowStep(37, 7, true, 18);
    LowStep(18, 6, false, 9);
    LowStep(9, 5, true, 4);
    LowStep(4, 4, false, 2);
    LowStep(2, 3, false, 1);
    LowStep(1, 2, true, 0);
    LowStep(0, 1, false, 0);
    LowNone(0);
  }

  lemma {:induction false} OtherBytes()
    ensures Low(0x04, 8) == [false, false, true, false, false, false, false, false]
    ensures Low(0x00, 8) == [false, false, false, false, false, false, false, false]
  {
    hide Low;
    LowStep(4, 8, false, 2);
    LowStep(2, 7, false, 1);
    LowStep(1, 6, true, 0);
    LowZeros(5);
    LowZeros(8);
  }

  lemma {:induction false} LowZeros(n: nat)
    ensures Low(0, n) == Zeros(n)
    decreases n
  {
    if n > 0 {
      LowZeros(n - 1);
    }
  }

  lemma {:induction false} OneToken(t: Token)
    requires t.Literal?
    ensures LzProof.AllGood([t], 0) && LzProof.Expand([t], []) == [t.byte]
    ensures LzProof.BlockBits(FixedCode.LITERALS, FixedCode.DISTANCES, [t], 0) == SymbolBits(FixedCode.LITERALS, t.byte)
  {
  }

  // ----- the checksum -----

  lemma {:induction false} FeedStep(c: bv32, b: bv32, n: nat)
    requires n > 0
    ensures ArcCrc.FeedBits(c, b, n) ==
      ArcCrc.FeedBits(if (c ^ b) & 1 == 1 then ((c ^ (b & 1)) >> 1) ^ 0xEDB88320 else (c ^ (b & 1)) >> 1, b >> 1, n - 1)
  {
  }

  /** The checksum of one letter. */
  lemma {:induction false} KnownChecksum()
    ensures ArcCrc.Crc32([97]) == 0xE8B7BE43
  {
    hide ArcCrc.FeedBits;
    FeedStep(0xFFFFFFFF, 97, 8);
    FeedStep(0x7FFFFFFF, 48, 7);
    FeedStep(0xD2477CDF, 24, 6);
    FeedStep(0x849B3D4F, 12, 5);
    FeedStep(0xAFF51D87, 6, 4);
    FeedStep(0xBA420DE3, 3, 3);
    FeedStep(0x5D2106F1, 1, 2);
    FeedStep(0x2E908378, 0, 1);
    FeedNothing(0x174841BC, 0);
    var d: seq<ArcCrc.Byte> := [97];
    assert d[1..] == [];
    assert ArcCrc.Feed(0xFFFF_FFFF, d) == ArcCrc.Feed(ArcCrc.FeedBits(0xFFFF_FFFF, d[0], 8), d[1..]);
  }

  lemma {:induction false} FeedNothing(c: bv32, b: bv32)
    ensures ArcCrc.FeedBits(c, b, 0) == c
  {
  }
}
