/**
 arc x: which reader an archive goes to, decided by its bytes alone.  What arc made comes back
 exactly when the bytes do not look like something else.
 */
module ArcFiles {

  import opened Wrappers
  import opened ArcBase
  import opened Inflate
  import opened DeflateRun
  import Tar
  import Zip
  import Gzip

  /** Where the pieces came from, and whether gunzip ran first; or why nothing came out. */
  datatype Unpacked =
    | FromZip(unzipped: bool, items: seq<Item>)
    | FromTar(unzipped: bool, items: seq<Item>)
    | OneFile(item: Item)
    | WillNotDecompress
    | NotAnArchive

  predicate LooksGz(b: Bytes) {
    |b| > 2 && b[0] == 0x1f && b[1] == 0x8b
  }

  predicate LooksZip(b: Bytes) {
    |b| > 4 && Zip.Get32(b, 0) == Zip.LOCAL_SIGNATURE
  }

  predicate LooksTar(b: Bytes) {
    |b| > 262 && b[257..262] == Tar.USTAR
  }

  // ----- the name of a single file -----

  predicate IsLetter(b: Byte, lower: Byte)
    requires lower >= 32
  {
    b == lower || b == lower - 32
  }

  /** The archive's name in a buffer of 512, without a .gz of any case at its end. */
  function BareName(archive: Bytes): Bytes {
    var name := if |archive| <= 511 then archive else archive[..511];
    var n := |name|;
    if n > 3 && name[n - 3] == 46 && IsLetter(name[n - 2], 103) && IsLetter(name[n - 1], 122) then name[..n - 3]
    else name
  }

  /** NAME.gz gives NAME, unless NAME is empty. */
  lemma {:induction false} GzNameBack(name: Bytes, g: Byte, z: Byte)
    requires |name| + 3 <= 511 && g in [103, 71] && z in [122, 90]
    ensures BareName(name + [46, g, z]) == name <==> name != []
  {
    var archive := name + [46, g, z];
    assert archive[..|name|] == name;
    assert name == [] ==> |archive| == 3;
  }

  // ----- the dispatch -----

  function Dispatch(archive: Bytes, plain: Bytes, unzipped: bool): Unpacked {
    if LooksZip(plain) then FromZip(unzipped, Zip.Extract(plain, 0))
    else if LooksTar(plain) then FromTar(unzipped, Tar.Extract(plain, 0))
    else if unzipped then OneFile(File(BareName(archive), Zip.PERMISSIONS, plain))
    else NotAnArchive
  }

  /** What `arc x` makes of an archive. */
  function Unpack(archive: Bytes, b: Bytes): Unpacked {
    if LooksGz(b) then
      match Gzip.Gunzip(b)
      case Broken => WillNotDecompress
      case Whole(plain) => Dispatch(archive, plain, true)
    else Dispatch(archive, b, false)
  }

  /** unpack_archive. */
  method UnpackArchive(archive: Bytes, b: Bytes) returns (r: Unpacked)
    ensures r == Unpack(archive, b)
  {
    hide Gzip.Gunzip, Zip.Extract, Tar.Extract, Zip.Get32, BareName;
    var plain, unzipped := b, false;
    if |b| > 2 && b[0] == 0x1f && b[1] == 0x8b {
      var g := Gzip.GunzipFile(b);
      if g.Broken? {
        return WillNotDecompress;
      }
      plain, unzipped := g.out, true;
    }
    if |plain| > 4 && Zip.Get32(plain, 0) == Zip.LOCAL_SIGNATURE {
      var items := Zip.ReadZip(plain);
      r := FromZip(unzipped, items);
    } else if |plain| > 262 && plain[257..262] == Tar.USTAR {
      var items := Tar.ReadTar(plain);
      r := FromTar(unzipped, items);
    } else if unzipped {
      r := OneFile(File(BareName(archive), Zip.PERMISSIONS, plain));
    } else {
      r := NotAnArchive;
    }
  }

  // ----- .gz -----

  /** A .gz goes through gunzip to the dispatch. */
  lemma {:induction false} GzDispatches(archive: Bytes, packed: Bytes, data: Bytes)
    requires Encodes(packed, data)
    ensures Unpack(archive, Gzip.GzFile(packed, data)) == Dispatch(archive, data, true)
  {
    hide Encodes, Gzip.Gunzip, Dispatch;
    Gzip.GzRoundTrip(packed, data);
    Gzip.GzHead(packed, data);
  }

  /** The file comes back as it was exactly when it looks neither like a zip nor like a tar. */
  lemma {:induction false} GzUnpacks(archive: Bytes, packed: Bytes, data: Bytes)
    requires Encodes(packed, data)
    ensures Unpack(archive, Gzip.GzFile(packed, data)) == OneFile(File(BareName(archive), Zip.PERMISSIONS, data))
       <==> !(|data| > 4 && Zip.Get32(data, 0) == Zip.LOCAL_SIGNATURE)
            && !(|data| > 262 && data[257..262] == Tar.USTAR)
  {
    hide Encodes, Unpack, BareName, Zip.Extract, Tar.Extract, Zip.Get32;
    GzDispatches(archive, packed, data);
  }

  // ----- .zip -----

  ghost predicate SomeFound(files: seq<Zip.Source>) {
    exists i :: 0 <= i < |files| && files[i].Found?
  }

  /** A .zip made by arc gives its readable files back, names and contents in order, exactly when
      there is one: without any it does not start like a zip. */
  lemma {:induction false} ZipUnpacks(archive: Bytes, es: seq<Zip.ZipEntry>, files: seq<Zip.Source>)
    requires |es| == |files| && Zip.AllSound(es, files)
    ensures Unpack(archive, Zip.Archive(es, files)) == FromZip(false, Zip.Listed(es, files)) <==> SomeFound(files)
  {
    hide Zip.AllSound, Zip.Archive, Zip.Extract, Zip.Listed, Zip.Get32, Tar.Extract, Gzip.Gunzip;
    var z := Zip.Archive(es, files);
    Zip.ZipRoundTrip(es, files);
    Zip.StartsLikeZip(es, files);
    Zip.FirstByte(z);
  }

  /** A .gz of such a .zip gives the members, and the .zip itself never comes back. */
  lemma {:induction false} GzOfZipGivesMembers(
      archive: Bytes, packed: Bytes, es: seq<Zip.ZipEntry>, files: seq<Zip.Source>)
    requires |es| == |files| && Zip.AllSound(es, files) && SomeFound(files)
    requires Encodes(packed, Zip.Archive(es, files))
    ensures Unpack(archive, Gzip.GzFile(packed, Zip.Archive(es, files))) == FromZip(true, Zip.Listed(es, files))
  {
    hide Encodes, Unpack, Zip.AllSound, Zip.Archive, Zip.Extract, Zip.Listed, Zip.Get32;
    GzDispatches(archive, packed, Zip.Archive(es, files));
    Zip.ZipRoundTrip(es, files);
    Zip.StartsLikeZip(es, files);
  }

  // ----- .tar and .tar.gz -----

  /** The first file that went into a tar. */
  function FirstPacked(es: seq<Tar.Entry>): (r: Option<Tar.Entry>)
    ensures r.Some? ==> r.value in es && r.value.contents.Some?
    ensures r.None? ==> forall i :: 0 <= i < |es| ==> es[i].contents.None?
    decreases |es|
  {
    if es == [] then None
    else if es[0].contents.Some? then Some(es[0])
    else FirstPacked(es[1..])
  }

  ghost predicate NamesFit(es: seq<Tar.Entry>) {
    forall i :: 0 <= i < |es| && es[i].contents.Some? ==> Tar.NameFits(es[i])
  }

  predicate StartsLikeGz(name: Bytes) {
    |name| >= 2 && name[..2] == [0x1f, 0x8b]
  }

  predicate StartsLikeZip(name: Bytes) {
    |name| >= 4 && name[..4] == [0x50, 0x4b, 3, 4]
  }

  /** A tar starts with the header of its first file, or is empty. */
  lemma {:induction false} TarStarts(es: seq<Tar.Entry>)
    ensures var t, first := Tar.Archive(es), FirstPacked(es);
      if first.None? then t == Tar.Zeros(1024)
      else |t| >= Tar.BLOCK && t[..Tar.BLOCK] == Tar.Header(first.value, |first.value.contents.value|)
    decreases |es|
  {
    hide Tar.Header, Tar.Round, Tar.Zeros;
    if es != [] {
      TarStarts(es[1..]);
      if es[0].contents.None? {
        assert Tar.Archive(es) == Tar.Archive(es[1..]);
      } else {
        var data := es[0].contents.value;
        var m := Tar.Member(es[0], data);
        assert Tar.Archive(es)[..Tar.BLOCK] == m[..Tar.BLOCK] == Tar.Header(es[0], |data|);
      }
    }
  }

  /** The first bytes of a header are those of the name, or zero. */
  lemma {:induction false} HeaderStarts(e: Tar.Entry, len: nat, i: nat)
    requires i < 4
    ensures Tar.Header(e, len)[i] == if i < |e.name| then e.name[i] else 0
  {
  }

  /** What a block that starts with a header looks like. */
  lemma {:induction false} HeaderLooks(t: Bytes, e: Tar.Entry, len: nat)
    requires |t| >= Tar.BLOCK && t[..Tar.BLOCK] == Tar.Header(e, len)
    ensures LooksTar(t)
    ensures LooksZip(t) <==> StartsLikeZip(e.name)
    ensures LooksGz(t) <==> StartsLikeGz(e.name)
  {
    hide Tar.Header;
    var h := Tar.Header(e, len);
    Tar.HeaderSlices(e, len);
    assert t[257..262] == h[257..262];
    assert forall i :: 0 <= i < 4 ==> t[i] == h[i];
    HeaderStarts(e, len, 0);
    HeaderStarts(e, len, 1);
    HeaderStarts(e, len, 2);
    HeaderStarts(e, len, 3);
    Zip.LocalBytes(t);
  }

  /** An empty tar looks like nothing. */
  lemma {:induction false} ZerosLook(t: Bytes)
    requires t == Tar.Zeros(1024)
    ensures !LooksGz(t) && !LooksZip(t) && !LooksTar(t)
  {
    Zip.LocalBytes(t);
    assert t[257..262][0] == 0;
  }

  /** How the bytes of a tar are dispatched. */
  lemma {:induction false} TarDispatches(archive: Bytes, es: seq<Tar.Entry>, unzipped: bool)
    requires forall i :: 0 <= i < |es| ==> Tar.Sound(es[i])
    ensures var first := FirstPacked(es);
      && (Dispatch(archive, Tar.Archive(es), unzipped) == FromTar(unzipped, Tar.Files(es))
          <==> first.Some? && !StartsLikeZip(first.value.name) && NamesFit(es))
      && (LooksGz(Tar.Archive(es)) <==> first.Some? && StartsLikeGz(first.value.name))
  {
    hide Tar.Archive, Tar.Extract, Tar.Files, Tar.Sound, Zip.Extract, Tar.Header, BareName, LooksGz, LooksZip, LooksTar,
      StartsLikeGz, StartsLikeZip;
    var t, first := Tar.Archive(es), FirstPacked(es);
    TarStarts(es);
    Tar.TarRoundTrip(es);
    if first.Some? {
      HeaderLooks(t, first.value, |first.value.contents.value|);
    } else {
      ZerosLook(t);
    }
  }

  /** A .tar made by arc gives its files back exactly when there is one, every name has 1 to 99
      bytes, and the first name starts neither like a gzip file nor like a zip. */
  lemma {:induction false} TarUnpacks(archive: Bytes, es: seq<Tar.Entry>)
    requires forall i :: 0 <= i < |es| ==> Tar.Sound(es[i])
    ensures var first := FirstPacked(es);
      Unpack(archive, Tar.Archive(es)) == FromTar(false, Tar.Files(es))
      <==> first.Some? && !StartsLikeGz(first.value.name) && !StartsLikeZip(first.value.name) && NamesFit(es)
  {
    hide Tar.Archive, Tar.Files, Tar.Sound, Tar.Extract, Zip.Extract, Gzip.Gunzip, LooksGz, LooksZip, LooksTar,
      StartsLikeGz, StartsLikeZip, BareName, NamesFit;
    TarDispatches(archive, es, false);
  }

  /** A .tar.gz: the same, but only the start of a zip matters. */
  lemma {:induction false} TarGzUnpacks(archive: Bytes, es: seq<Tar.Entry>, packed: Bytes)
    requires Encodes(packed, Tar.Archive(es)) && forall i :: 0 <= i < |es| ==> Tar.Sound(es[i])
    ensures var first := FirstPacked(es);
      Unpack(archive, Gzip.GzFile(packed, Tar.Archive(es))) == FromTar(true, Tar.Files(es))
      <==> first.Some? && !StartsLikeZip(first.value.name) && NamesFit(es)
  {
    hide Encodes, Unpack, Dispatch, Tar.Archive, Tar.Files, Tar.Sound, StartsLikeZip, NamesFit;
    GzDispatches(archive, packed, Tar.Archive(es));
    TarDispatches(archive, es, true);
  }

  // ----- what does not come back -----

  /** A .tar.gz of files none of which could be read gives one file of 1024 zero bytes; the same
      .tar is not taken for an archive. */
  lemma {:induction false} EmptyTar(archive: Bytes, es: seq<Tar.Entry>, packed: Bytes)
    requires Encodes(packed, Tar.Archive(es)) && FirstPacked(es).None?
    ensures Unpack(archive, Gzip.GzFile(packed, Tar.Archive(es)))
         == OneFile(File(BareName(archive), Zip.PERMISSIONS, Tar.Zeros(1024)))
    ensures Unpack(archive, Tar.Archive(es)) == NotAnArchive
  {
    hide Encodes, BareName, Tar.Archive, LooksGz, LooksZip, LooksTar;
    GzDispatches(archive, packed, Tar.Archive(es));
    TarStarts(es);
    ZerosLook(Tar.Archive(es));
  }

  /** A file named PK\3\4, alone in a .tar, sends it to the zip reader. */
  lemma {:induction false} TarReadAsZip(archive: Bytes, data: Bytes)
    ensures var e := Tar.Entry([0x50, 0x4b, 3, 4], 420, |data|, Some(data), 0);
      Unpack(archive, Tar.Archive([e])).FromZip?
  {
    hide Tar.Archive, Zip.Extract, Tar.Header, LooksGz, LooksZip, LooksTar;
    var e := Tar.Entry([0x50, 0x4b, 3, 4], 420, |data|, Some(data), 0);
    TarStarts([e]);
    assert e.name[..4] == e.name && e.name[..2][0] == 0x50;
    HeaderLooks(Tar.Archive([e]), e, |data|);
  }
}
