/**
 arc's zip writer and reader.  The writer puts one local record per readable file and then
 a central directory that must repeat each record's fields and say where it starts; the
 reader walks the local records.
 */
module Zip {

  import opened Wrappers
  import opened ArcBase
  import Inflate
  import DeflateRun
  import ArcCrc

  const LOCAL_SIGNATURE: nat := 0x04034b50
  const CENTRAL_SIGNATURE: nat := 0x02014b50
  const END_SIGNATURE: nat := 0x06054b50

  /** A file as the writer finds it: what could be read, and what raw_deflate made of that (None
      where it was not asked or gave up). */
  datatype Source = Missing | Found(data: Bytes, packed: Option<Bytes>)

  /** entry_t.  Until a file is packed the last four fields are what a static array holds. */
  datatype ZipEntry = ZipEntry(path: Bytes, size: nat, mode: nat, packed: nat, offset: nat, crc: nat, stored: bool)

  predicate Collected(e: ZipEntry) {
    e.packed == 0 && e.offset == 0 && e.crc == 0 && !e.stored && |e.path| <= 511
  }

  function AsCrcInput(d: Bytes): seq<ArcCrc.Byte> {
    seq(|d|, i requires 0 <= i < |d| => ArcCrc.Index(d[i]))
  }

  function CrcOf(d: Bytes): nat {
    ArcCrc.Crc32(AsCrcInput(d)) as int
  }

  // ----- little-endian numbers -----

  function Le16(v: nat): (r: Bytes)
    ensures |r| == 2
  {
    [v % 256, v / 0x100 % 256]
  }

  function Le32(v: nat): (r: Bytes)
    ensures |r| == 4
  {
    [v % 256, v / 0x100 % 256, v / 0x1_0000 % 256, v / 0x100_0000 % 256]
  }

  function Get16(z: Bytes, at: nat): nat
    requires at + 2 <= |z|
  {
    z[at] as int + z[at + 1] as int * 0x100
  }

  function Get32(z: Bytes, at: nat): nat
    requires at + 4 <= |z|
  {
    z[at] as int + z[at + 1] as int * 0x100 + z[at + 2] as int * 0x1_0000 + z[at + 3] as int * 0x100_0000
  }

  lemma {:induction false} TwoDigits(v: nat)
    ensures v % 256 + v / 0x100 % 256 * 0x100 == v % 0x1_0000
  {
    var a, b := v / 0x100, v / 0x1_0000;
    assert b == a / 256;
    assert v == v % 256 + 256 * a && a == a % 256 + 256 * b && v == v % 0x1_0000 + 0x1_0000 * b;
  }

  lemma {:induction false} Get16Back(z: Bytes, at: nat, v: nat)
    requires at + 2 <= |z| && z[at..at + 2] == Le16(v)
    ensures Get16(z, at) == v % 0x1_0000
  {
    var s := z[at..at + 2];
    TwoDigits(v);
    assert z[at] == s[0] && z[at + 1] == s[1];
  }

  /** The four base-256 digits of the low word. */
  lemma {:induction false} FourDigits(v: nat)
    ensures v % 256 + v / 0x100 % 256 * 0x100 + v / 0x1_0000 % 256 * 0x1_0000 + v / 0x100_0000 % 256 * 0x100_0000
         == v % TWO32
  {
    var a, b, c, d := v / 0x100, v / 0x1_0000, v / 0x100_0000, v / 0x1_0000_0000;
    assert b == a / 256 && c == b / 256 && d == c / 256;
    assert v == v % 256 + 256 * a && a == a % 256 + 256 * b && b == b % 256 + 256 * c && c == c % 256 + 256 * d;
    assert v == v % TWO32 + TWO32 * d;
  }

  lemma {:induction false} Get32Back(z: Bytes, at: nat, v: nat)
    requires at + 4 <= |z| && z[at..at + 4] == Le32(v)
    ensures Get32(z, at) == v % TWO32
  {
    var s := z[at..at + 4];
    FourDigits(v);
    assert z[at] == s[0] && z[at + 1] == s[1] && z[at + 2] == s[2] && z[at + 3] == s[3];
  }

  // ----- records -----

  /** The fields, from the method to the extra length, that a local record and its directory
      entry share: 22 bytes. */
  function Shared(e: ZipEntry): (r: Bytes)
    ensures |r| == 22
  {
    Le16(if e.stored then 0 else 8) + Le16(0) + Le16(0) + Le32(e.crc) + Le32(e.packed) + Le32(e.size)
    + Le16(|e.path|) + Le16(0)
  }

  function LocalHeader(e: ZipEntry): (r: Bytes)
    ensures |r| == 30
  {
    Le32(LOCAL_SIGNATURE) + Le16(20) + Le16(0) + Shared(e)
  }

  function CentralHeader(e: ZipEntry): (r: Bytes)
    ensures |r| == 46
  {
    Le32(CENTRAL_SIGNATURE) + Le16(20) + Le16(20) + Le16(0) + Shared(e)
    + Le16(0) + Le16(0) + Le16(0) + Le32(e.mode * 0x1_0000) + Le32(e.offset)
  }

  function EndRecord(count: nat, dirSize: nat, dirStart: nat): (r: Bytes)
    ensures |r| == 22
  {
    Le32(END_SIGNATURE) + Le16(0) + Le16(0) + Le16(count) + Le16(count) + Le32(dirSize) + Le32(dirStart) + Le16(0)
  }

  /** Compressed data is used only for a non-empty file that it makes shorter. */
  predicate Shrinks(f: Source)
    requires f.Found?
  {
    f.data != [] && f.packed.Some? && |f.packed.value| < |f.data|
  }

  function Payload(f: Source): Bytes
    requires f.Found?
  {
    if Shrinks(f) then f.packed.value else f.data
  }

  /** The entry once its file has been read and is about to be written at `offset`. */
  function Filled(e: ZipEntry, f: Source, offset: nat): ZipEntry
    requires f.Found?
  {
    e.(crc := CrcOf(f.data), size := |f.data|, offset := offset,
       stored := !Shrinks(f), packed := |Payload(f)|)
  }

  function LocalRecord(e: ZipEntry, f: Source): Bytes
    requires f.Found?
  {
    LocalHeader(e) + e.path + Payload(f)
  }

  /** The local records of the readable files, in order, the first starting at `offset`. */
  function Locals(es: seq<ZipEntry>, files: seq<Source>, offset: nat): Bytes
    requires |es| == |files|
    decreases |es|
  {
    if es == [] then []
    else if files[0].Missing? then Locals(es[1..], files[1..], offset)
    else
      var r := LocalRecord(Filled(es[0], files[0], offset), files[0]);
      r + Locals(es[1..], files[1..], offset + |r|)
  }

  /** The entries after that pass; those of unreadable files are as collected. */
  function Pass(es: seq<ZipEntry>, files: seq<Source>, offset: nat): (r: seq<ZipEntry>)
    requires |es| == |files|
    ensures |r| == |es|
    decreases |es|
  {
    if es == [] then []
    else if files[0].Missing? then [es[0]] + Pass(es[1..], files[1..], offset)
    else
      var e := Filled(es[0], files[0], offset);
      [e] + Pass(es[1..], files[1..], offset + |LocalRecord(e, files[0])|)
  }

  function Central(es: seq<ZipEntry>): Bytes
    decreases |es|
  {
    if es == [] then [] else CentralHeader(es[0]) + es[0].path + Central(es[1..])
  }

  function Archive(es: seq<ZipEntry>, files: seq<Source>): Bytes
    requires |es| == |files|
  {
    var locals := Locals(es, files, 0);
    var directory := Central(Pass(es, files, 0));
    locals + directory + EndRecord(|es|, |directory|, |locals|)
  }

  // ----- the writer -----

  method Put16(f: Bytes, v: nat) returns (r: Bytes)
    ensures r == f + Le16(v)
  {
    r := f + [v % 256];
    r := r + [v / 0x100 % 256];
  }

  method Put32(f: Bytes, v: nat) returns (r: Bytes)
    ensures r == f + Le32(v)
  {
    r := f;
    var i, shift := 0, 1;
    while i < 4
      invariant 0 <= i <= 4 && shift == [1, 0x100, 0x1_0000, 0x100_0000, 0x1_0000_0000][i]
      invariant r == f + Le32(v)[..i]
    {
      r := r + [v / shift % 256];
      i, shift := i + 1, shift * 0x100;
    }
  }

  method PutShared(f: Bytes, e: ZipEntry) returns (r: Bytes)
    ensures r == f + Shared(e)
  {
    hide Le16, Le32;
    r := Put16(f, if e.stored then 0 else 8);
    r := Put16(r, 0);
    r := Put16(r, 0);
    r := Put32(r, e.crc);
    r := Put32(r, e.packed);
    r := Put32(r, e.size);
    r := Put16(r, |e.path|);
    r := Put16(r, 0);
  }

  method PutLocalHeader(f: Bytes, e: ZipEntry) returns (r: Bytes)
    ensures r == f + LocalHeader(e)
  {
    hide Le16, Le32, Shared;
    r := Put32(f, LOCAL_SIGNATURE);
    r := Put16(r, 20);
    r := Put16(r, 0);
    r := PutShared(r, e);
  }

  method PutCentralHeader(f: Bytes, e: ZipEntry) returns (r: Bytes)
    ensures r == f + CentralHeader(e)
  {
    hide Le16, Le32, Shared;
    r := Put32(f, CENTRAL_SIGNATURE);
    r := Put16(r, 20);
    r := Put16(r, 20);
    r := Put16(r, 0);
    r := PutShared(r, e);
    r := Put16(r, 0);
    r := Put16(r, 0);
    r := Put16(r, 0);
    r := Put32(r, e.mode * 0x1_0000);
    r := Put32(r, e.offset);
  }

  method PutEnd(f: Bytes, count: nat, dirSize: nat, dirStart: nat) returns (r: Bytes)
    ensures r == f + EndRecord(count, dirSize, dirStart)
  {
    hide Le16, Le32;
    r := Put32(f, END_SIGNATURE);
    r := Put16(r, 0);
    r := Put16(r, 0);
    r := Put16(r, count);
    r := Put16(r, count);
    r := Put32(r, dirSize);
    r := Put32(r, dirStart);
    r := Put16(r, 0);
  }

  method PutRecord(f: Bytes, e: ZipEntry, file: Source) returns (r: Bytes)
    requires file.Found?
    ensures r == f + LocalRecord(e, file)
  {
    hide LocalHeader, Payload;
    r := PutLocalHeader(f, e);
    r := r + e.path;
    r := r + Payload(file);
  }

  /** What raw_deflate made of the data, where there is something, is a compressed form of it. */
  ghost predicate Packs(f: Source) {
    f.Found? && f.packed.Some? ==> DeflateRun.Encodes(f.packed.value, f.data)
  }

  /** The source is this file. */
  ghost predicate Reads(file: Option<Bytes>, f: Source) {
    && Packs(f)
    && match file
       case None => f.Missing?
       case Some(data) => f.Found? && f.data == data
  }

  /** A file and its compressed form; an empty one is not compressed. */
  method Pack(file: Option<Bytes>) returns (f: Source)
    ensures Reads(file, f)
  {
    if file.None? {
      return Missing;
    }
    f := Found(file.value, None);
    if file.value != [] {
      var packed := DeflateRun.RawDeflate(file.value);
      f := Found(file.value, Some(packed));
    }
  }

  /** The first pass: fill in the entries and write the local records. */
  method WriteLocals(entries: array<ZipEntry>, files: seq<Option<Bytes>>) returns (f: Bytes, ghost sources: seq<Source>)
    requires entries.Length == |files|
    modifies entries
    ensures |sources| == |files| && forall i :: 0 <= i < |files| ==> Reads(files[i], sources[i])
    ensures entries[..] == Pass(old(entries[..]), sources, 0)
    ensures f == Locals(old(entries[..]), sources, 0)
  {
    hide LocalRecord, Filled, Pass, Locals, Reads;
    ghost var es := entries[..];
    f, sources := [], [];
    var i := 0;
    PassEnd(0);
    while i < entries.Length
      invariant 0 <= i <= entries.Length && entries[i..] == es[i..]
      invariant |sources| == i && forall j :: 0 <= j < i ==> Reads(files[j], sources[j])
      invariant f == Locals(es[..i], sources, 0) && entries[..i] == Pass(es[..i], sources, 0)
    {
      assert entries[i] == entries[i..][0] == es[i];
      var file := Pack(files[i]);
      LocalsAppend(es[..i], sources, es[i], file, 0);
      assert es[..i] + [es[i]] == es[..i + 1];
      ghost var done := entries[..i];
      if file.Found? {
        var e := Filled(entries[i], file, |f|);
        f := PutRecord(f, e, file);
        entries[i] := e;
      }
      sources := sources + [file];
      assert entries[..i + 1] == done + [entries[i]];
      assert entries[i + 1..] == es[i + 1..];
      i := i + 1;
    }
    assert es[..i] == es && entries[..i] == entries[..];
  }

  lemma {:induction false} LocalsAppend(es: seq<ZipEntry>, files: seq<Source>, e: ZipEntry, file: Source, offset: nat)
    requires |es| == |files|
    ensures var f, all := Locals(es, files, offset), Pass(es, files, offset);
      if file.Missing? then
        && Locals(es + [e], files + [file], offset) == f
        && Pass(es + [e], files + [file], offset) == all + [e]
      else
        var filled := Filled(e, file, offset + |f|);
        && Locals(es + [e], files + [file], offset) == f + LocalRecord(filled, file)
        && Pass(es + [e], files + [file], offset) == all + [filled]
    decreases |es|
  {
    hide LocalRecord, Filled, Pass, Locals;
    PassStep(es + [e], files + [file], offset);
    if es == [] {
      assert (es + [e])[1..] == [] && (files + [file])[1..] == [];
      PassEnd(offset);
      if file.Found? {
        PassEnd(offset + |LocalRecord(Filled(e, file, offset), file)|);
      }
    } else {
      PassStep(es, files, offset);
      assert (es + [e])[1..] == es[1..] + [e] && (files + [file])[1..] == files[1..] + [file];
      var more := if files[0].Missing? then 0 else |LocalRecord(Filled(es[0], files[0], offset), files[0])|;
      LocalsAppend(es[1..], files[1..], e, file, offset + more);
    }
  }

  lemma {:induction false} PassEnd(offset: nat)
    ensures Locals([], [], offset) == [] && Pass([], [], offset) == []
  {
  }

  lemma {:induction false} PassStep(es: seq<ZipEntry>, files: seq<Source>, offset: nat)
    requires |es| == |files| > 0
    ensures files[0].Missing? ==>
      && Locals(es, files, offset) == Locals(es[1..], files[1..], offset)
      && Pass(es, files, offset) == [es[0]] + Pass(es[1..], files[1..], offset)
    ensures files[0].Found? ==>
      var e := Filled(es[0], files[0], offset);
      var r := LocalRecord(e, files[0]);
      && Locals(es, files, offset) == r + Locals(es[1..], files[1..], offset + |r|)
      && Pass(es, files, offset) == [e] + Pass(es[1..], files[1..], offset + |r|)
  {
    hide LocalRecord, Filled;
  }

  /** The second pass: one directory entry per collected file, readable or not. */
  method WriteDirectory(f: Bytes, entries: array<ZipEntry>) returns (r: Bytes)
    ensures r == f + Central(entries[..])
  {
    hide CentralHeader, Central;
    r := f;
    var i := 0;
    assert entries[0..] == entries[..];
    while i < entries.Length
      invariant 0 <= i <= entries.Length
      invariant r + Central(entries[i..]) == f + Central(entries[..])
    {
      DirectoryStep(entries[i..]);
      assert entries[i..][1..] == entries[i + 1..];
      ghost var before := r;
      r := PutCentralHeader(r, entries[i]);
      r := r + entries[i].path;
      assert r == before + (CentralHeader(entries[i]) + entries[i].path);
      i := i + 1;
    }
    assert entries[i..] == [];
    DirectoryEnd();
  }

  lemma {:induction false} DirectoryEnd()
    ensures Central([]) == []
  {
  }

  lemma {:induction false} DirectoryStep(es: seq<ZipEntry>)
    requires es != []
    ensures Central(es) == (CentralHeader(es[0]) + es[0].path) + Central(es[1..])
  {
    hide CentralHeader;
  }

  /** create_zip. */
  method CreateZip(entries: array<ZipEntry>, files: seq<Option<Bytes>>) returns (f: Bytes, ghost sources: seq<Source>)
    requires entries.Length == |files|
    modifies entries
    ensures |sources| == |files| && forall i :: 0 <= i < |files| ==> Reads(files[i], sources[i])
    ensures entries[..] == Pass(old(entries[..]), sources, 0)
    ensures f == Archive(old(entries[..]), sources)
  {
    hide Locals, Pass, Central, EndRecord, Reads;
    f, sources := WriteLocals(entries, files);
    var start := |f|;
    f := WriteDirectory(f, entries);
    var size := |f| - start;
    f := PutEnd(f, entries.Length, size, start);
  }

  // ----- the reader -----

  const PERMISSIONS: nat := 420   // 0644
  const SLASH: Byte := 47

  /** The fields of a local header that the reader looks at. */
  datatype Record = Record(kind: nat, packed: nat, namelen: nat, extra: nat)

  function RecordAt(z: Bytes, at: nat): Record
    requires at + 30 <= |z|
  {
    Record(Get16(z, at + 8), Get32(z, at + 18), Get16(z, at + 26), Get16(z, at + 28))
  }

  /** Where the data of a record at `at` starts. */
  function DataAt(at: nat, r: Record): nat {
    at + 30 + r.namelen + r.extra
  }

  predicate IsDirectory(name: Bytes) {
    name != [] && name[|name| - 1] == SLASH
  }

  function NameAt(z: Bytes, at: nat, r: Record): Bytes
    requires DataAt(at, r) <= |z|
  {
    z[at + 30..at + 30 + if r.namelen < 511 then r.namelen else 511]
  }

  /** What one record hands on; directories, unknown methods and broken data give nothing. */
  function Handed(name: Bytes, kind: nat, data: Bytes): seq<Item> {
    if IsDirectory(name) then []
    else if kind == 0 then [File(CString(name), PERMISSIONS, data)]
    else if kind == 8 && Inflate.InflateBytes(data).Whole? then
      [File(CString(name), PERMISSIONS, Inflate.InflateBytes(data).out)]
    else []
  }

  /** No further record at `at`. */
  predicate Over(z: Bytes, at: nat) {
    || at + 30 > |z|
    || Get32(z, at) != LOCAL_SIGNATURE
    || (var r := RecordAt(z, at); DataAt(at, r) + r.packed > |z|)
  }

  /** What the reader hands on from offset `at`. */
  function Extract(z: Bytes, at: nat): seq<Item>
    decreases |z| - at
  {
    if Over(z, at) then [] else
    var r := RecordAt(z, at);
    var data := DataAt(at, r);
    Handed(NameAt(z, at, r), r.kind, z[data..data + r.packed]) + Extract(z, data + r.packed)
  }

  lemma {:induction false} ExtractGoes(z: Bytes, at: nat)
    requires !Over(z, at)
    ensures var r := RecordAt(z, at); var data := DataAt(at, r);
      Extract(z, at)
      == Handed(NameAt(z, at, r), r.kind, z[data..data + r.packed]) + Extract(z, data + r.packed)
  {
    hide RecordAt, Handed, NameAt;
  }

  lemma {:induction false} ExtractStops(z: Bytes, at: nat)
    requires Over(z, at)
    ensures Extract(z, at) == []
  {
  }

  /** What becomes of one record. */
  method HandRecord(name: Bytes, kind: nat, data: Bytes) returns (items: seq<Item>)
    ensures items == Handed(name, kind, data)
  {
    hide Inflate.InflateBytes, CString;
    items := [];
    if |name| > 0 && name[|name| - 1] == SLASH {
      return;
    }
    if kind == 0 {
      items := [File(CString(name), PERMISSIONS, data)];
    } else if kind == 8 {
      var raw := Inflate.InflateRun(data);
      if raw.Whole? {
        items := [File(CString(name), PERMISSIONS, raw.out)];
      }
    }
  }

  /** read_zip: what is handed to the file system, in order. */
  method ReadZip(z: Bytes) returns (items: seq<Item>)
    ensures items == Extract(z, 0)
  {
    hide Extract, Get16, Get32, Handed;
    items := [];
    var at := 0;
    while at + 30 <= |z| && Get32(z, at) == LOCAL_SIGNATURE
      invariant items + Extract(z, at) == Extract(z, 0)
    {
      var kind, packed := Get16(z, at + 8), Get32(z, at + 18);
      var namelen, extra := Get16(z, at + 26), Get16(z, at + 28);
      var data := at + 30 + namelen + extra;
      if data + packed > |z| {
        ExtractStops(z, at);
        return;
      }
      ExtractGoes(z, at);
      var n := if namelen < 511 then namelen else 511;
      var now := HandRecord(z[at + 30..at + 30 + n], kind, z[data..data + packed]);
      HandOver(items, now, Extract(z, data + packed), Extract(z, 0));
      items := items + now;
      at := data + packed;
    }
    ExtractStops(z, at);
  }

  // ----- the round trip -----

  /** A name as the file system gives it, short enough for its buffer, and a file below 4 GiB. */
  ghost predicate Sound(e: ZipEntry, file: Source) {
    && Collected(e)
    && (forall i :: 0 <= i < |e.path| ==> e.path[i] != 0)
    && (file.Found? ==> |file.data| < TWO32)
    && Packs(file)
  }

  /** The readable files whose name is not one of a directory. */
  function Listed(es: seq<ZipEntry>, files: seq<Source>): seq<Item>
    requires |es| == |files|
    decreases |es|
  {
    if es == [] then []
    else
      (if files[0].Found? && !IsDirectory(es[0].path) then [File(es[0].path, PERMISSIONS, files[0].data)] else [])
      + Listed(es[1..], files[1..])
  }

  lemma {:induction false} ListedStep(es: seq<ZipEntry>, files: seq<Source>)
    requires |es| == |files|
    ensures es == [] ==> Listed(es, files) == []
    ensures es != [] && files[0].Missing? ==> Listed(es, files) == Listed(es[1..], files[1..])
    ensures es != [] && files[0].Found? ==>
      Listed(es, files)
      == (if IsDirectory(es[0].path) then [] else [File(es[0].path, PERMISSIONS, files[0].data)])
         + Listed(es[1..], files[1..])
  {
    hide IsDirectory;
  }

  /** Where the shared fields stand. */
  lemma {:induction false} SharedSlices(e: ZipEntry)
    ensures var s := Shared(e);
      && s[0..2] == Le16(if e.stored then 0 else 8)
      && s[10..14] == Le32(e.packed)
      && s[18..20] == Le16(|e.path|)
      && s[20..22] == Le16(0)
  {
  }

  lemma {:induction false} LocalSlices(e: ZipEntry)
    ensures LocalHeader(e)[0..4] == Le32(LOCAL_SIGNATURE)
    ensures LocalHeader(e)[8..30] == Shared(e)
  {
    hide Shared;
  }

  /** A slice of a slice. */
  lemma {:induction false} Within(z: Bytes, at: nat, h: Bytes, i: nat, j: nat)
    requires at + |h| <= |z| && z[at..at + |h|] == h && i <= j <= |h|
    ensures z[at + i..at + j] == h[i..j]
  {
    SubSlice(z, at, |h|, i, j);
  }

  lemma {:induction false} LocalRead(z: Bytes, at: nat, e: ZipEntry)
    requires at + 30 <= |z| && z[at..at + 30] == LocalHeader(e) && e.packed < TWO32 && |e.path| <= 511
    ensures Get32(z, at) == LOCAL_SIGNATURE
    ensures RecordAt(z, at) == Record(if e.stored then 0 else 8, e.packed, |e.path|, 0)
  {
    hide Get16, Get32, Le16, Le32, LocalHeader, Shared;
    LocalSlices(e);
    SharedSlices(e);
    Within(z, at, LocalHeader(e), 0, 4);
    Get32Back(z, at, LOCAL_SIGNATURE);
    Within(z, at, LocalHeader(e), 8, 30);
    Within(z, at + 8, Shared(e), 0, 2);
    Get16Back(z, at + 8, if e.stored then 0 else 8);
    Within(z, at + 8, Shared(e), 10, 14);
    Get32Back(z, at + 18, e.packed);
    Within(z, at + 8, Shared(e), 18, 20);
    Get16Back(z, at + 26, |e.path|);
    Within(z, at + 8, Shared(e), 20, 22);
    Get16Back(z, at + 28, 0);
  }

  /** The bytes s stand in z at `at`. */
  predicate Stands(z: Bytes, at: nat, s: Bytes) {
    at + |s| <= |z| && z[at..at + |s|] == s
  }

  lemma {:induction false} StandsSplit(z: Bytes, at: nat, s: Bytes, t: Bytes)
    requires Stands(z, at, s + t)
    ensures Stands(z, at, s) && Stands(z, at + |s|, t)
  {
    Within(z, at, s + t, 0, |s|);
    Within(z, at, s + t, |s|, |s| + |t|);
    assert (s + t)[0..|s|] == s && (s + t)[|s|..|s| + |t|] == t;
  }

  /** The payload of a file, read back by the method its record names. */
  lemma {:induction false} PayloadBack(e: ZipEntry, file: Source, offset: nat)
    requires file.Found? && Sound(e, file)
    ensures var f := Filled(e, file, offset);
      Handed(e.path, if f.stored then 0 else 8, Payload(file))
      == if IsDirectory(e.path) then [] else [File(e.path, PERMISSIONS, file.data)]
  {
    hide DeflateRun.Encodes, Inflate.InflateBytes;
    CStringWhole(e.path);
    PackedBack(file);
  }

  /** Packed data is not empty and unpacks to the file. */
  lemma {:induction false} PackedBack(file: Source)
    requires file.Found? && Packs(file)
    ensures file.packed.Some? ==>
      file.packed.value != [] && Inflate.InflateBytes(file.packed.value) == Inflate.Whole(file.data)
  {
    hide DeflateRun.Encodes, Inflate.InflateBytes;
    if file.packed.Some? {
      DeflateRun.InflateInverts(file.packed.value, file.data, []);
      assert file.packed.value + [] == file.packed.value;
    }
  }

  lemma {:induction false} CStringWhole(s: Bytes)
    requires forall i :: 0 <= i < |s| ==> s[i] != 0
    ensures CString(s) == s
    decreases |s|
  {
    if s != [] {
      CStringWhole(s[1..]);
    }
  }

  /** Reading one record gives its file and goes on right behind it. */
  lemma {:induction false} ReadsRecord(z: Bytes, at: nat, e: ZipEntry, file: Source)
    requires file.Found? && Sound(e, file)
    requires Stands(z, at, LocalRecord(Filled(e, file, at), file))
    ensures Extract(z, at)
      == (if IsDirectory(e.path) then [] else [File(e.path, PERMISSIONS, file.data)])
         + Extract(z, at + |LocalRecord(Filled(e, file, at), file)|)
  {
    hide Extract, LocalHeader, Handed, Get32, RecordAt, IsDirectory, Payload, Filled, Packs;
    var f := Filled(e, file, at);
    var p := Payload(file);
    FilledOffset(e, file, at);
    FilledFits(e, file, at);
    StandsSplit(z, at, LocalHeader(f) + f.path, p);
    StandsSplit(z, at, LocalHeader(f), f.path);
    LocalRead(z, at, f);
    var r := RecordAt(z, at);
    assert DataAt(at, r) == at + |LocalHeader(f) + f.path|;
    assert NameAt(z, at, r) == e.path;
    ExtractGoes(z, at);
    PayloadBack(e, file, at);
  }

  ghost predicate AllSound(es: seq<ZipEntry>, files: seq<Source>)
    requires |es| == |files|
  {
    forall i :: 0 <= i < |es| ==> Sound(es[i], files[i])
  }

  lemma {:induction false} TailSound(es: seq<ZipEntry>, files: seq<Source>)
    requires |es| == |files| > 0 && AllSound(es, files)
    ensures Sound(es[0], files[0]) && AllSound(es[1..], files[1..])
  {
    hide Sound;
  }

  lemma {:induction false} ReadsLocals(z: Bytes, at: nat, es: seq<ZipEntry>, files: seq<Source>)
    requires |es| == |files| && AllSound(es, files)
    requires Stands(z, at, Locals(es, files, at))
    ensures Extract(z, at) == Listed(es, files) + Extract(z, at + |Locals(es, files, at)|)
    decreases |es|
  {
    hide Extract, LocalRecord, Filled, Sound, AllSound, IsDirectory, Locals, Stands, Pass, Listed;
    ListedStep(es, files);
    if es == [] {
      PassEnd(at);
    } else {
      TailSound(es, files);
      PassStep(es, files, at);
      if files[0].Missing? {
        ReadsLocals(z, at, es[1..], files[1..]);
      } else {
        var r := LocalRecord(Filled(es[0], files[0], at), files[0]);
        StandsSplit(z, at, r, Locals(es[1..], files[1..], at + |r|));
        ReadsRecord(z, at, es[0], files[0]);
        ReadsLocals(z, at + |r|, es[1..], files[1..]);
        var now := if IsDirectory(es[0].path) then [] else [File(es[0].path, PERMISSIONS, files[0].data)];
        var end := at + |r| + |Locals(es[1..], files[1..], at + |r|)|;
        HandOver(now, Listed(es[1..], files[1..]), Extract(z, end), Extract(z, at));
      }
    }
  }

  /** The archive's own layout. */
  lemma {:induction false} Layout(es: seq<ZipEntry>, files: seq<Source>)
    requires |es| == |files|
    ensures var z, locals, directory :=
        Archive(es, files), Locals(es, files, 0), Central(Pass(es, files, 0));
      && |z| == |locals| + |directory| + 22
      && Stands(z, 0, locals)
      && Stands(z, |locals|, directory)
      && Stands(z, |locals| + |directory|, EndRecord(|es|, |directory|, |locals|))
  {
    hide Locals, Central, Pass, EndRecord;
  }

  lemma {:induction false} CentralSlices(e: ZipEntry)
    ensures CentralHeader(e)[0..4] == Le32(CENTRAL_SIGNATURE)
    ensures CentralHeader(e)[10..32] == Shared(e)
    ensures CentralHeader(e)[38..42] == Le32(e.mode * 0x1_0000)
    ensures CentralHeader(e)[42..46] == Le32(e.offset)
  {
    hide Shared;
  }

  /** What a directory entry says. */
  lemma {:induction false} CentralRead(z: Bytes, p: nat, e: ZipEntry)
    requires Stands(z, p, CentralHeader(e)) && |e.path| <= 511
    ensures Get32(z, p) == CENTRAL_SIGNATURE
    ensures Stands(z, p + 10, Shared(e))
    ensures Get16(z, p + 28) == |e.path|
    ensures Get32(z, p + 42) == e.offset % TWO32
  {
    hide Get16, Get32, Le16, Le32, CentralHeader, Shared;
    CentralSlices(e);
    SharedSlices(e);
    Within(z, p, CentralHeader(e), 0, 4);
    Get32Back(z, p, CENTRAL_SIGNATURE);
    Within(z, p, CentralHeader(e), 10, 32);
    Within(z, p + 10, Shared(e), 18, 20);
    Get16Back(z, p + 28, |e.path|);
    Within(z, p, CentralHeader(e), 42, 46);
    Get32Back(z, p + 42, e.offset);
  }

  /** The i-th directory entry stands behind the ones before it. */
  lemma {:induction false} DirectoryHolds(z: Bytes, at: nat, all: seq<ZipEntry>, i: nat)
    requires i < |all| && Stands(z, at, Central(all))
    ensures Stands(z, at + |Central(all[..i])|, CentralHeader(all[i]) + all[i].path)
    decreases i
  {
    hide CentralHeader, Stands;
    var first := CentralHeader(all[0]) + all[0].path;
    DirectoryStep(all);
    StandsSplit(z, at, first, Central(all[1..]));
    if i > 0 {
      DirectoryHolds(z, at + |first|, all[1..], i - 1);
      assert all[..i][0] == all[0] && all[..i][1..] == all[1..][..i - 1];
      DirectoryStep(all[..i]);
    }
  }

  /** No record starts where the directory does. */
  lemma {:induction false} NothingAfterLocals(es: seq<ZipEntry>, files: seq<Source>)
    requires |es| == |files| && (forall i :: 0 <= i < |es| ==> |es[i].path| <= 511)
    ensures Over(Archive(es, files), |Locals(es, files, 0)|)
  {
    hide Archive, Locals, CentralHeader, Get32, Pass, RecordAt, Stands;
    Layout(es, files);
    var z, at, all := Archive(es, files), |Locals(es, files, 0)|, Pass(es, files, 0);
    if es != [] {
      DirectoryHolds(z, at, all, 0);
      StandsSplit(z, at, CentralHeader(all[0]), all[0].path);
      PassAt(es, files, 0, 0);
      CentralRead(z, at, all[0]);
    }
  }

  /** The entry of an unreadable file is left alone, that of a readable one filled in. */
  lemma {:induction false} PassAt(es: seq<ZipEntry>, files: seq<Source>, at: nat, i: nat)
    requires i < |es| == |files|
    ensures var e := Pass(es, files, at)[i];
      e == if files[i].Missing? then es[i] else Filled(es[i], files[i], e.offset)
    decreases |es|
  {
    hide Filled, LocalRecord;
    if i > 0 {
      if files[0].Missing? {
        PassAt(es[1..], files[1..], at, i - 1);
      } else {
        var r := LocalRecord(Filled(es[0], files[0], at), files[0]);
        PassAt(es[1..], files[1..], at + |r|, i - 1);
      }
    } else if files[0].Found? {
      FilledOffset(es[0], files[0], at);
    }
  }

  lemma {:induction false} FilledFits(e: ZipEntry, file: Source, at: nat)
    requires file.Found? && Sound(e, file)
    ensures Filled(e, file, at).packed == |Payload(file)| < TWO32
  {
  }

  lemma {:induction false} FilledOffset(e: ZipEntry, file: Source, at: nat)
    requires file.Found?
    ensures Filled(e, file, at).offset == at && Filled(e, file, at).path == e.path
  {
  }

  /** The record of a readable file stands at the offset its entry remembers. */
  lemma {:induction false} LocalsHold(z: Bytes, at: nat, es: seq<ZipEntry>, files: seq<Source>, i: nat)
    requires i < |es| == |files| && Stands(z, at, Locals(es, files, at)) && files[i].Found?
    ensures var e := Pass(es, files, at)[i];
      && Stands(z, e.offset, LocalRecord(e, files[i]))
      && e.offset <= at + |Locals(es, files, at)|
    decreases |es|
  {
    hide LocalRecord, Filled, Stands, Locals, Pass;
    PassStep(es, files, at);
    if files[0].Missing? {
      LocalsHold(z, at, es[1..], files[1..], i - 1);
    } else {
      var f := Filled(es[0], files[0], at);
      var r := LocalRecord(f, files[0]);
      StandsSplit(z, at, r, Locals(es[1..], files[1..], at + |r|));
      if i == 0 {
        FilledOffset(es[0], files[0], at);
      } else {
        LocalsHold(z, at + |r|, es[1..], files[1..], i - 1);
      }
    }
  }

  lemma {:induction false} PathsFit(es: seq<ZipEntry>, files: seq<Source>)
    requires |es| == |files| && AllSound(es, files)
    ensures forall i :: 0 <= i < |es| ==> |es[i].path| <= 511
  {
  }

  /** `read_zip` of `create_zip`: exactly the readable files, names and contents, in order. */
  lemma {:induction false} ZipRoundTrip(es: seq<ZipEntry>, files: seq<Source>)
    requires |es| == |files| && AllSound(es, files)
    ensures Extract(Archive(es, files), 0) == Listed(es, files)
  {
    hide *;
    var z := Archive(es, files);
    Layout(es, files);
    ReadsLocals(z, 0, es, files);
    PathsFit(es, files);
    NothingAfterLocals(es, files);
    ExtractStops(z, |Locals(es, files, 0)|);
  }

  // ----- the directory -----

  /** The directory entry at p describes the local record at o: both signatures, the same
      method, checksum, sizes and lengths, and the same name. */
  predicate Describes(z: Bytes, p: nat, o: nat) {
    && p + 46 <= |z| && o + 30 <= |z|
    && Get32(z, p) == CENTRAL_SIGNATURE
    && Get32(z, o) == LOCAL_SIGNATURE
    && z[p + 10..p + 32] == z[o + 8..o + 30]
    && var n := Get16(z, p + 28);
    && p + 46 + n <= |z| && o + 30 + n <= |z|
    && z[p + 46..p + 46 + n] == z[o + 30..o + 30 + n]
  }

  lemma {:induction false} ReadableIsDescribed(z: Bytes, p: nat, e: ZipEntry, file: Source)
    requires file.Found?
    requires Stands(z, p, CentralHeader(e) + e.path) && Stands(z, e.offset, LocalRecord(e, file))
    requires |e.path| <= 511 && e.packed < TWO32
    ensures Describes(z, p, e.offset)
  {
    hide CentralHeader, LocalHeader, Get32, Get16, Shared, RecordAt;
    StandsSplit(z, p, CentralHeader(e), e.path);
    StandsSplit(z, e.offset, LocalHeader(e) + e.path, Payload(file));
    StandsSplit(z, e.offset, LocalHeader(e), e.path);
    CentralRead(z, p, e);
    LocalRead(z, e.offset, e);
    LocalSlices(e);
    Within(z, e.offset, LocalHeader(e), 8, 30);
  }

  /** The first record, if there is one, is not an empty compressed one. */
  lemma {:induction false} FirstRecord(z: Bytes, es: seq<ZipEntry>, files: seq<Source>)
    requires |es| == |files| && AllSound(es, files)
    requires Stands(z, 0, Locals(es, files, 0)) && Locals(es, files, 0) != []
    ensures |z| >= 30 && (Get16(z, 8) != 8 || Get32(z, 18) != 0)
    decreases |es|
  {
    hide LocalHeader, Get16, Get32, Packs;
    if files[0].Missing? {
      TailSound(es, files);
      FirstRecord(z, es[1..], files[1..]);
    } else {
      var f := Filled(es[0], files[0], 0);
      assert Sound(es[0], files[0]);
      var r := LocalRecord(f, files[0]);
      StandsSplit(z, 0, r, Locals(es[1..], files[1..], |r|));
      StandsSplit(z, 0, LocalHeader(f) + f.path, Payload(files[0]));
      StandsSplit(z, 0, LocalHeader(f), f.path);
      LocalRead(z, 0, f);
      PackedBack(files[0]);
    }
  }

  lemma {:induction false} SameFields(z: Bytes, p: nat, o: nat)
    requires p + 32 <= |z| && o + 30 <= |z| && z[p + 10..p + 32] == z[o + 8..o + 30]
    ensures Get16(z, o + 8) == Get16(z, p + 10) && Get32(z, o + 18) == Get32(z, p + 20)
  {
    var a, b := z[p + 10..p + 32], z[o + 8..o + 30];
    assert a[0] == b[0] && a[1] == b[1] && a[10] == b[10] && a[11] == b[11] && a[12] == b[12] && a[13] == b[13];
  }

  lemma {:induction false} UnreadableIsNot(es: seq<ZipEntry>, files: seq<Source>, p: nat, i: nat)
    requires i < |es| == |files| && AllSound(es, files)
    requires Stands(Archive(es, files), p, CentralHeader(es[i]))
    ensures !Describes(Archive(es, files), p, 0)
  {
    hide Archive, CentralHeader, Shared, Le16, Le32, Get16, Get32, Pass, Locals, Central, Filled;
    var z := Archive(es, files);
    Layout(es, files);
    if Describes(z, p, 0) {
      assert Sound(es[i], files[i]);
      CentralRead(z, p, es[i]);
      SharedSlices(es[i]);
      Within(z, p + 10, Shared(es[i]), 0, 2);
      Get16Back(z, p + 10, 8);
      Within(z, p + 10, Shared(es[i]), 10, 14);
      Get32Back(z, p + 20, 0);
      SameFields(z, p, 0);
      if Locals(es, files, 0) == [] {
        var all := Pass(es, files, 0);
        DirectoryHolds(z, 0, all, 0);
        assert all[..0] == [];
        DirectoryEnd();
        StandsSplit(z, 0, CentralHeader(all[0]), all[0].path);
        PassAt(es, files, 0, 0);
        assert Sound(es[0], files[0]);
        if files[0].Found? {
          FilledOffset(es[0], files[0], all[0].offset);
        }
        CentralRead(z, 0, all[0]);
      } else {
        FirstRecord(z, es, files);
      }
    }
  }

  /** Every directory entry points at a record with its own method, checksum, sizes and name,
      exactly when its file could be read; and the end record has the count, the size and
      the start of the directory. */
  lemma {:induction false} DirectoryIsRight(es: seq<ZipEntry>, files: seq<Source>, i: nat)
    requires i < |es| == |files| && AllSound(es, files)
    requires |Locals(es, files, 0)| < TWO32
    ensures var z, all := Archive(es, files), Pass(es, files, 0);
      var p := |Locals(es, files, 0)| + |Central(all[..i])|;
      p + 46 <= |z| && (Describes(z, p, Get32(z, p + 42)) <==> files[i].Found?)
  {
    hide Archive, CentralHeader, Shared, Get16, Get32, Describes, Locals, Pass, LocalRecord, Central, Stands, Filled;
    var z, all := Archive(es, files), Pass(es, files, 0);
    Layout(es, files);
    var p := |Locals(es, files, 0)| + |Central(all[..i])|;
    DirectoryHolds(z, |Locals(es, files, 0)|, all, i);
    PassAt(es, files, 0, i);
    assert Sound(es[i], files[i]);
    if files[i].Found? {
      FilledOffset(es[i], files[i], all[i].offset);
    }
    StandsSplit(z, p, CentralHeader(all[i]), all[i].path);
    CentralRead(z, p, all[i]);
    if files[i].Found? {
      LocalsHold(z, 0, es, files, i);
      FilledFits(es[i], files[i], all[i].offset);
      ReadableIsDescribed(z, p, all[i], files[i]);
    } else {
      assert Get32(z, p + 42) == 0;
      UnreadableIsNot(es, files, p, i);
    }
  }

  lemma {:induction false} EndIsRight(es: seq<ZipEntry>, files: seq<Source>)
    requires |es| == |files| <= 4096
    requires |Archive(es, files)| < TWO32
    ensures var z := Archive(es, files);
      var locals, directory := Locals(es, files, 0), Central(Pass(es, files, 0));
      && |z| >= 22
      && Get32(z, |z| - 22) == END_SIGNATURE
      && Get16(z, |z| - 14) == Get16(z, |z| - 12) == |es|
      && Get32(z, |z| - 10) == |directory|
      && Get32(z, |z| - 6) == |locals|
      && z[|locals|..|locals| + |directory|] == directory
  {
    hide Archive, Locals, Central, Pass, Get16, Get32, EndRecord, Le16, Le32;
    Layout(es, files);
    var z, d, l := Archive(es, files), |Central(Pass(es, files, 0))|, |Locals(es, files, 0)|;
    var at := |z| - 22;
    var e := EndRecord(|es|, d, l);
    EndSlices(|es|, d, l);
    Within(z, at, e, 0, 4);
    Get32Back(z, at, END_SIGNATURE);
    Within(z, at, e, 8, 10);
    Get16Back(z, at + 8, |es|);
    Within(z, at, e, 10, 12);
    Get16Back(z, at + 10, |es|);
    Within(z, at, e, 12, 16);
    Get32Back(z, at + 12, d);
    Within(z, at, e, 16, 20);
    Get32Back(z, at + 16, l);
  }

  lemma {:induction false} EndSlices(count: nat, d: nat, l: nat)
    ensures var e := EndRecord(count, d, l);
      && e[0..4] == Le32(END_SIGNATURE)
      && e[8..10] == Le16(count) && e[10..12] == Le16(count)
      && e[12..16] == Le32(d) && e[16..20] == Le32(l)
  {
  }

  // ----- the first bytes -----

  lemma {:induction false} FirstByte(z: Bytes)
    requires |z| >= 4
    ensures z[0] == Get32(z, 0) % 256
  {
    assert Get32(z, 0) == z[0] as int + 0x100 * (z[1] as int + z[2] as int * 0x100 + z[3] as int * 0x1_0000);
  }

  /** The signature of a local record, byte by byte. */
  lemma {:induction false} LocalBytes(z: Bytes)
    requires |z| >= 4
    ensures Get32(z, 0) == LOCAL_SIGNATURE <==> z[0] == 0x50 && z[1] == 0x4b && z[2] == 3 && z[3] == 4
  {
  }

  /** An archive starts with a local record exactly when a file could be read; otherwise with the
      directory or, when that is empty too, with the end record. */
  lemma {:induction false} StartsLikeZip(es: seq<ZipEntry>, files: seq<Source>)
    requires |es| == |files| && AllSound(es, files)
    ensures var z := Archive(es, files);
      && |z| > 4
      && (Get32(z, 0) == LOCAL_SIGNATURE <==> exists i :: 0 <= i < |files| && files[i].Found?)
      && Get32(z, 0) % 256 == 0x50
  {
    hide Archive, Locals, Pass, CentralHeader, Get32, RecordAt, Stands, Sound, EndRecord;
    var z := Archive(es, files);
    Layout(es, files);
    SomeLocals(es, files, 0);
    if exists i :: 0 <= i < |files| && files[i].Found? {
      FirstLocal(z, es, files);
    } else if es != [] {
      var all := Pass(es, files, 0);
      DirectoryHolds(z, 0, all, 0);
      assert all[..0] == [];
      DirectoryEnd();
      StandsSplit(z, 0, CentralHeader(all[0]), all[0].path);
      PassAt(es, files, 0, 0);
      PathsFit(es, files);
      CentralRead(z, 0, all[0]);
    } else {
      PassEnd(0);
      DirectoryEnd();
      EndSlices(0, 0, 0);
      EndRead(z);
    }
  }

  lemma {:induction false} EndRead(z: Bytes)
    requires Stands(z, 0, EndRecord(0, 0, 0))
    ensures Get32(z, 0) == END_SIGNATURE
  {
    hide EndRecord, Le16, Le32, Get32;
    EndSlices(0, 0, 0);
    Within(z, 0, EndRecord(0, 0, 0), 0, 4);
    Get32Back(z, 0, END_SIGNATURE);
  }

  /** There are local records exactly when a file could be read. */
  lemma {:induction false} SomeLocals(es: seq<ZipEntry>, files: seq<Source>, offset: nat)
    requires |es| == |files|
    ensures Locals(es, files, offset) != [] <==> exists i :: 0 <= i < |files| && files[i].Found?
    decreases |es|
  {
    hide Filled, Locals, Pass, LocalHeader, Payload;
    if es == [] {
      PassEnd(offset);
    } else {
      PassStep(es, files, offset);
      if files[0].Missing? {
        SomeLocals(es[1..], files[1..], offset);
        assert forall i :: 0 < i < |files| ==> files[i] == files[1..][i - 1];
      }
    }
  }

  lemma {:induction false} FirstLocal(z: Bytes, es: seq<ZipEntry>, files: seq<Source>)
    requires |es| == |files| && AllSound(es, files)
    requires Stands(z, 0, Locals(es, files, 0)) && Locals(es, files, 0) != []
    ensures |z| >= 30 && Get32(z, 0) == LOCAL_SIGNATURE
    decreases |es|
  {
    hide LocalHeader, Get32, Packs, RecordAt;
    TailSound(es, files);
    if files[0].Missing? {
      FirstLocal(z, es[1..], files[1..]);
    } else {
      var f := Filled(es[0], files[0], 0);
      var r := LocalRecord(f, files[0]);
      StandsSplit(z, 0, r, Locals(es[1..], files[1..], |r|));
      StandsSplit(z, 0, LocalHeader(f) + f.path, Payload(files[0]));
      StandsSplit(z, 0, LocalHeader(f), f.path);
      LocalRead(z, 0, f);
    }
  }
}
