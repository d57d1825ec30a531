/**
 Archives that another program wrote, byte by byte: what the readers make of a tar header of any
 kind and of a zip record with an extra field.
 */
module ArcForeign {

  import opened Wrappers
  import opened ArcBase
  import Inflate
  import DeflateRun
  import Tar
  import Zip

  predicate ZeroFree(s: Bytes) {
    forall i :: 0 <= i < |s| ==> s[i] != 0
  }

  // ----- tar -----

  /** The digits '0' to '7'. */
  predicate Octal(s: Bytes) {
    forall i :: 0 <= i < |s| ==> 48 <= s[i] <= 55
  }

  function Power8(n: nat): nat {
    if n == 0 then 1 else 8 * Power8(n - 1)
  }

  /** Each digit times eight to the power of its place. */
  function OctalSum(s: Bytes): nat
    requires Octal(s)
  {
    if s == [] then 0 else (s[0] - 48) * Power8(|s| - 1) + OctalSum(s[1..])
  }

  lemma {:induction false} ReadsOctal(v: nat, s: Bytes, rest: Bytes)
    requires Octal(s) && (rest == [] || rest[0] < 48 || rest[0] > 55)
    ensures Tar.OctalValue(v, s + rest) == v * Power8(|s|) + OctalSum(s)
    decreases |s|
  {
    if s == [] {
      assert s + rest == rest;
    } else {
      assert (s + rest)[1..] == s[1..] + rest;
      var d: nat := s[0] - 48;
      ReadsOctal(v * 8 + d, s[1..], rest);
      NextPlace(v, d, Power8(|s| - 1));
    }
  }

  lemma {:induction false} NextPlace(v: nat, d: nat, p: nat)
    ensures (v * 8 + d) * p == v * (8 * p) + d * p
  {
    assert v * 8 * p == v * (8 * p);
  }

  /** A number stands in the w bytes from i on: octal digits, and unless they fill them something
      else behind. */
  ghost predicate NumberAt(t: Bytes, i: nat, w: nat, digits: Bytes) {
    && i + w <= |t|
    && |digits| <= w
    && Octal(digits)
    && t[i..i + |digits|] == digits
    && (|digits| < w ==> t[i + |digits|] < 48 || t[i + |digits|] > 55)
  }

  lemma {:induction false} ReadsNumberAt(t: Bytes, i: nat, w: nat, digits: Bytes)
    requires NumberAt(t, i, w, digits)
    ensures Octal(digits)
    ensures Tar.OctalValue(0, t[i..i + w]) == OctalSum(digits)
  {
    var rest := t[i + |digits|..i + w];
    assert t[i..i + w] == digits + rest;
    ReadsOctal(0, digits, rest);
  }

  /** A name stands in the hundred bytes from i on, and ends with a zero unless it fills them. */
  ghost predicate TarName(t: Bytes, i: nat, name: Bytes) {
    && i + 100 <= |t|
    && 1 <= |name| <= 100
    && ZeroFree(name)
    && t[i..i + |name|] == name
    && (|name| < 100 ==> t[i + |name|] == 0)
  }

  lemma {:induction false} ReadsTarName(t: Bytes, i: nat, name: Bytes)
    requires TarName(t, i, name)
    ensures CString(t[i..i + 100]) == name && t[i] != 0
  {
    var s := t[i..i + 100];
    assert s[..|name|] == name;
    assert t[i] == name[0];
    if |name| < 100 {
      assert s[|name|] == t[i + |name|];
      Tar.ReadsName(s, name);
    } else {
      assert s == name;
      Zip.CStringWhole(name);
    }
  }

  /** A header of kind '0' or zero is a file and takes the bytes behind it; one of kind '5' is a
      directory; any other kind is passed over.  Reading goes on behind the data, rounded up to
      512 bytes.  A file that runs over the end stops the reader. */
  lemma {:induction false} ReadsForeignTar(t: Bytes, at: nat, name: Bytes, mode: Bytes, size: Bytes)
    requires at + 512 <= |t| && TarName(t, at, name)
    requires NumberAt(t, at + 100, 8, mode) && NumberAt(t, at + 124, 12, size) && OctalSum(size) + 511 < 0x1_0000_0000
    ensures var kind, n, body := t[at + 156], OctalSum(size), at + 512;
      var rest := Tar.Extract(t, body + (n + 511) / 512 * 512);
      Tar.Extract(t, at) ==
        if kind == 48 || kind == 0 then
          if body + n <= |t| then [File(name, OctalSum(mode), t[body..body + n])] + rest else []
        else if kind == 53 then [Directory(name)] + rest
        else rest
  {
    hide Tar.Extract, Tar.OctalValue, CString, Tar.Round, NumberAt, TarName, OctalSum;
    ReadsTarName(t, at, name);
    ReadsNumberAt(t, at + 100, 8, mode);
    ReadsNumberAt(t, at + 124, 12, size);
    var n, body := OctalSum(size), at + 512;
    assert Tar.Round(n) == (n + 511) / 512 * 512 by {
      RoundsUp(n);
    }
    if Tar.IsFile(Tar.FieldsAt(t, at)) && body + n > |t| {
      Tar.ExtractStops(t, at);
    } else {
      Tar.ExtractGoes(t, at);
      assert [] + Tar.Extract(t, body + Tar.Round(n)) == Tar.Extract(t, body + Tar.Round(n));
    }
  }

  lemma {:induction false} RoundsUp(n: nat)
    requires n + 511 < 0x1_0000_0000
    ensures Tar.Round(n) == (n + 511) / 512 * 512
  {
    assert (n + 511) % TWO32 == n + 511;
  }

  // ----- zip -----

  /** The thirty bytes of a local header, with numbers low byte first. */
  ghost predicate ZipHeader(h: Bytes, kind: nat, packed: nat, name: nat, extra: nat) {
    && |h| == 30
    && h[0] == 0x50 && h[1] == 0x4b && h[2] == 3 && h[3] == 4
    && h[8] as int + 256 * h[9] as int == kind
    && h[18] as int + 256 * h[19] as int + 65536 * h[20] as int + 16777216 * h[21] as int == packed
    && h[26] as int + 256 * h[27] as int == name
    && h[28] as int + 256 * h[29] as int == extra
  }

  lemma {:induction false} ReadsZipHeader(z: Bytes, at: nat, h: Bytes, kind: nat, packed: nat, name: nat, extra: nat)
    requires ZipHeader(h, kind, packed, name, extra) && Zip.Stands(z, at, h)
    ensures at + 30 <= |z| && Zip.Get32(z, at) == Zip.LOCAL_SIGNATURE
    ensures Zip.RecordAt(z, at) == Zip.Record(kind, packed, name, extra)
  {
    assert z[at..at + 30] == h;
    assert z[at] == h[0] && z[at + 1] == h[1] && z[at + 2] == h[2] && z[at + 3] == h[3];
    assert z[at + 8] == h[8] && z[at + 9] == h[9];
    assert z[at + 18] == h[18] && z[at + 19] == h[19] && z[at + 20] == h[20] && z[at + 21] == h[21];
    assert z[at + 26] == h[26] && z[at + 27] == h[27] && z[at + 28] == h[28] && z[at + 29] == h[29];
  }

  /** What the reader keeps of a name. */
  function Kept(name: Bytes): Bytes {
    if |name| <= 511 then name else name[..511]
  }

  lemma {:induction false} KeptWhole(name: Bytes)
    requires ZeroFree(name)
    ensures CString(Kept(name)) == Kept(name)
  {
    Zip.CStringWhole(Kept(name));
  }

  /** The parts of a record in their places. */
  lemma {:induction false} RecordParts(z: Bytes, at: nat, h: Bytes, name: Bytes, extra: Bytes, data: Bytes)
    requires |h| == 30 && Zip.Stands(z, at, h + name + extra + data)
    ensures Zip.Stands(z, at, h)
    ensures var start := at + 30 + |name| + |extra|;
      && start + |data| <= |z|
      && z[at + 30..at + 30 + |Kept(name)|] == Kept(name)
      && z[start..start + |data|] == data
  {
    Zip.StandsSplit(z, at, h + name + extra, data);
    Zip.StandsSplit(z, at, h + name, extra);
    Zip.StandsSplit(z, at, h, name);
    assert z[at + 30..at + 30 + |Kept(name)|] == z[at + 30..at + 30 + |name|][..|Kept(name)|];
  }

  /** A record with any extra field: what it holds is handed on under the first 511 bytes of its
      name, and reading goes on behind it. */
  lemma {:induction false} ReadsForeignZip(
      z: Bytes, at: nat, h: Bytes, kind: nat, name: Bytes, extra: Bytes, data: Bytes)
    requires ZipHeader(h, kind, |data|, |name|, |extra|) && ZeroFree(name)
    requires Zip.Stands(z, at, h + name + extra + data)
    ensures var n := Kept(name);
      var rest := Zip.Extract(z, at + 30 + |name| + |extra| + |data|);
      && (n != [] && n[|n| - 1] == 47 ==> Zip.Extract(z, at) == rest)
      && (n == [] || n[|n| - 1] != 47 ==>
            && (kind == 0 ==> Zip.Extract(z, at) == [File(n, 420, data)] + rest)
            && (kind == 8 ==> forall out :: DeflateRun.Encodes(data, out) ==>
                  Zip.Extract(z, at) == [File(n, 420, out)] + rest)
            && (kind != 0 && kind != 8 ==> Zip.Extract(z, at) == rest))
  {
    hide Zip.Extract, ZipHeader, Zip.Get32, Zip.RecordAt, DeflateRun.Encodes, Inflate.InflateBytes, CString, Zip.Stands,
         ZeroFree;
    HeaderSize(h, kind, |data|, |name|, |extra|);
    RecordParts(z, at, h, name, extra, data);
    ReadsZipHeader(z, at, h, kind, |data|, |name|, |extra|);
    Zip.ExtractGoes(z, at);
    KeptWhole(name);
    var n, next := Kept(name), at + 30 + |name| + |extra| + |data|;
    assert Zip.Extract(z, at) == Zip.Handed(n, kind, data) + Zip.Extract(z, next);
    assert [] + Zip.Extract(z, next) == Zip.Extract(z, next);
    forall out | DeflateRun.Encodes(data, out)
      ensures Inflate.InflateBytes(data) == Inflate.Whole(out)
    {
      DeflateRun.InflateInverts(data, out, []);
      assert data + [] == data;
    }
  }

  lemma {:induction false} HeaderSize(h: Bytes, kind: nat, packed: nat, name: nat, extra: nat)
    requires ZipHeader(h, kind, packed, name, extra)
    ensures |h| == 30
  {
  }
}
