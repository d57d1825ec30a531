/**
 arc's tar writer and reader.  The writer fills one zeroed buffer at a moving offset, 512
 bytes of header and then the data padded to 512; the reader walks the headers.  Reading
 what was written gives back the same files, exactly when every name fits its field.
 */
module Tar {

  import opened Wrappers
  import opened ArcBase

  const BLOCK: nat := 512
  const ZERO: Byte := 48   // '0'
  const SPACE: Byte := 32

  /** A file given to the writer: what stat said, and what could be read (None if nothing). */
  datatype Entry = Entry(name: Bytes, mode: nat, size: nat, contents: Option<Bytes>, mtime: nat)

  /** (n + 511) & ~511u, with the 32-bit mask of the source. */
  function Round(n: nat): nat {
    (n + 511) % TWO32 / BLOCK * BLOCK
  }

  /** The mask rounds up to a multiple of 512 exactly when the sum fits in 32 bits; beyond
      that it falls short of the data. */
  lemma {:induction false} RoundIsExact(n: nat)
    ensures n + 511 < TWO32 <==> n <= Round(n)
    ensures n + 511 < TWO32 ==> Round(n) < n + BLOCK && Round(n) % BLOCK == 0
  {
    if n + 511 < TWO32 {
      assert (n + 511) % TWO32 == n + 511;
    } else {
      assert (n + 511) % TWO32 <= n + 511 - TWO32;
    }
  }

  // ----- octal fields -----

  function OctalDigits(n: nat, value: nat): (r: Bytes)
    ensures |r| == n
  {
    if n == 0 then [] else OctalDigits(n - 1, value / 8) + [ZERO + value % 8]
  }

  /** A field of the given width: octal digits and a terminating zero byte. */
  function OctalField(width: nat, value: nat): (r: Bytes)
    requires width > 0
    ensures |r| == width
  {
    OctalDigits(width - 1, value) + [0]
  }

  predicate IsOctal(b: Byte) {
    ZERO <= b <= ZERO + 7
  }

  /** Accumulate leading octal digits. */
  function OctalValue(v: nat, s: Bytes): nat
    decreases |s|
  {
    if s == [] || !IsOctal(s[0]) then v else OctalValue(v * 8 + (s[0] - ZERO), s[1..])
  }

  function Pow8(n: nat): nat {
    if n == 0 then 1 else 8 * Pow8(n - 1)
  }

  lemma {:induction false} DigitsAreOctal(n: nat, value: nat)
    ensures forall i :: 0 <= i < n ==> IsOctal(OctalDigits(n, value)[i])
    decreases n
  {
    if n > 0 {
      DigitsAreOctal(n - 1, value / 8);
    }
  }

  lemma {:induction false} OctalValueAppend(v: nat, s: Bytes, b: Byte, rest: Bytes)
    requires forall i :: 0 <= i < |s| ==> IsOctal(s[i])
    ensures OctalValue(v, s + [b] + rest) == OctalValue(OctalValue(v, s), [b] + rest)
    decreases |s|
  {
    if s == [] {
      assert s + [b] + rest == [b] + rest;
    } else {
      OctalValueAppend(v * 8 + (s[0] - ZERO), s[1..], b, rest);
      assert (s + [b] + rest)[1..] == s[1..] + [b] + rest;
    }
  }

  /** Reading the digits of a number that fits gives the number. */
  lemma {:induction false} ReadDigits(n: nat, value: nat)
    requires value < Pow8(n)
    ensures OctalValue(0, OctalDigits(n, value)) == value
    decreases n
  {
    if n > 0 {
      assert value / 8 < Pow8(n - 1);
      ReadDigits(n - 1, value / 8);
      DigitsAreOctal(n - 1, value / 8);
      var last: Byte := ZERO + value % 8;
      OctalValueAppend(0, OctalDigits(n - 1, value / 8), last, []);
      assert OctalDigits(n, value) == OctalDigits(n - 1, value / 8) + [last] + [];
      assert ([last] + [])[1..] == [];
      assert OctalValue(value / 8, [last] + []) == OctalValue(value / 8 * 8 + value % 8, []);
    }
  }

  lemma {:induction false} ReadField(width: nat, value: nat)
    requires width > 0 && value < Pow8(width - 1)
    ensures OctalValue(0, OctalField(width, value)) == value
  {
    var digits := OctalDigits(width - 1, value);
    ReadDigits(width - 1, value);
    DigitsAreOctal(width - 1, value);
    OctalValueAppend(0, digits, 0, []);
    assert digits + [0] + [] == OctalField(width, value);
    assert OctalValue(value, [0] + []) == value;
  }

  // ----- the header -----

  function FieldName(e: Entry): Bytes {
    if |e.name| <= 99 then e.name else e.name[..99]
  }

  const USTAR: Bytes := [117, 115, 116, 97, 114]   // "ustar"

  /** Byte i of the header while the checksum field still holds spaces. */
  function BlankByte(e: Entry, len: nat, i: nat): Byte
    requires i < BLOCK
  {
    if i < 100 then (if i < |FieldName(e)| then FieldName(e)[i] else 0)
    else if i < 108 then OctalField(8, e.mode)[i - 100]
    else if i < 116 then OctalField(8, 0)[i - 108]
    else if i < 124 then OctalField(8, 0)[i - 116]
    else if i < 136 then OctalField(12, len)[i - 124]
    else if i < 148 then OctalField(12, e.mtime)[i - 136]
    else if i < 156 then SPACE
    else if i == 156 then ZERO
    else if 257 <= i < 262 then USTAR[i - 257]
    else if 263 <= i < 265 then ZERO
    else 0
  }

  function BlankHeader(e: Entry, len: nat): (h: Bytes)
    ensures |h| == BLOCK
  {
    seq(BLOCK, i requires 0 <= i < BLOCK => BlankByte(e, len, i))
  }

  function Sum(h: Bytes): (s: nat)
    ensures s <= 255 * |h|
  {
    if h == [] then 0 else Sum(h[..|h| - 1]) + h[|h| - 1]
  }

  /** The finished header: the checksum field holds six octal digits, a zero and a space. */
  function Header(e: Entry, len: nat): (h: Bytes)
    ensures |h| == BLOCK
  {
    var blank := BlankHeader(e, len);
    seq(BLOCK, i requires 0 <= i < BLOCK => if 148 <= i < 155 then OctalField(7, Sum(blank))[i - 148] else blank[i])
  }

  /** The stored checksum is the byte sum with its own field read as spaces, and it always
      fits its six digits. */
  lemma {:induction false} ChecksumIsRight(e: Entry, len: nat)
    ensures var h := Header(e, len);
      && Sum(BlankHeader(e, len)) < Pow8(6)
      && OctalValue(0, h[148..155]) == Sum(BlankHeader(e, len))
      && h[155] == SPACE
      && BlankHeader(e, len) == h[..148] + seq(8, _ => SPACE) + h[156..]
  {
    var blank := BlankHeader(e, len);
    assert Pow8(6) == 8 * Pow8(5) == 64 * Pow8(4) && Pow8(4) == 8 * Pow8(3) == 64 * Pow8(2) && Pow8(2) == 64;
    ReadField(7, Sum(blank));
    assert Header(e, len)[148..155] == OctalField(7, Sum(blank));
  }

  // ----- the archive -----

  function Zeros(n: nat): (r: Bytes)
    ensures |r| == n
  {
    seq(n, _ => 0)
  }

  /** One member: header, data, padding. */
  function Member(e: Entry, data: Bytes): Bytes {
    Header(e, |data|) + data + Zeros(if |data| <= Round(|data|) then Round(|data|) - |data| else 0)
  }

  /** The whole archive; unreadable files are left out. */
  function Archive(es: seq<Entry>): Bytes
    decreases |es|
  {
    if es == [] then Zeros(1024)
    else (if es[0].contents.Some? then Member(es[0], es[0].contents.value) else []) + Archive(es[1..])
  }

  // ----- reading -----

  /** The fields of a header that the reader looks at. */
  datatype Fields = Fields(name: Bytes, mode: nat, size: nat, kind: Byte)

  function FieldsAt(t: Bytes, at: nat): Fields
    requires at + BLOCK <= |t|
  {
    Fields(CString(t[at..at + 100]), OctalValue(0, t[at + 100..at + 108]),
           OctalValue(0, t[at + 124..at + 136]), t[at + 156])
  }

  predicate IsFile(f: Fields) {
    f.kind == ZERO || f.kind == 0
  }

  /** What one header hands on; other kinds than files and directories are passed over. */
  function Handed(t: Bytes, body: nat, f: Fields): seq<Item>
    requires IsFile(f) ==> body + f.size <= |t|
  {
    if IsFile(f) then [File(f.name, f.mode, t[body..body + f.size])]
    else if f.kind == 53 then [Directory(f.name)]
    else []
  }

  /** What the reader hands on from offset `at`: it stops at a short or empty header, and at
      a file that runs over the end. */
  function Extract(t: Bytes, at: nat): seq<Item>
    decreases |t| - at
  {
    if at + BLOCK > |t| || t[at] == 0 then [] else
    var f, body := FieldsAt(t, at), at + BLOCK;
    if IsFile(f) && body + f.size > |t| then [] else
    Handed(t, body, f) + Extract(t, body + Round(f.size))
  }

  // ----- the round trip -----

  /** What a C string in the file system gives: no zero byte in the name, permission bits
      only, and a size whose rounding is exact. */
  ghost predicate Sound(e: Entry) {
    && (forall i :: 0 <= i < |e.name| ==> e.name[i] != 0)
    && e.mode < Pow8(7)
    && (e.contents.Some? ==> |e.contents.value| + 511 < TWO32)
  }

  predicate NameFits(e: Entry) {
    1 <= |e.name| <= 99
  }

  /** The files that went in. */
  function Files(es: seq<Entry>): seq<Item>
    decreases |es|
  {
    if es == [] then []
    else (if es[0].contents.Some? then [File(es[0].name, es[0].mode, es[0].contents.value)] else []) + Files(es[1..])
  }

  lemma {:induction false} ReadsName(s: Bytes, name: Bytes)
    requires |name| < |s| && (forall i :: 0 <= i < |name| ==> name[i] != 0)
    requires s[..|name|] == name && s[|name|] == 0
    ensures CString(s) == name
    decreases |name|
  {
    if name != [] {
      assert s[0] == name[0];
      assert s[1..][..|name| - 1] == name[1..];
      ReadsName(s[1..], name[1..]);
      assert [name[0]] + name[1..] == name;
    }
  }

  /** The bytes of a member stand at `at`. */
  ghost predicate MemberAt(t: Bytes, at: nat, e: Entry, data: Bytes) {
    && at + BLOCK + |data| <= |t|
    && t[at..at + BLOCK] == Header(e, |data|)
    && t[at + BLOCK..at + BLOCK + |data|] == data
  }

  /** Every field stands where the ustar format has it; the last name byte is always zero. */
  lemma {:induction false} HeaderSlices(e: Entry, len: nat)
    ensures var h := Header(e, len);
      && h[..100][..|FieldName(e)|] == FieldName(e)
      && h[|FieldName(e)|] == 0
      && h[100..108] == OctalField(8, e.mode)
      && h[124..136] == OctalField(12, len)
      && h[156] == ZERO
      && h[108..116] == OctalField(8, 0) && h[116..124] == OctalField(8, 0)
      && h[136..148] == OctalField(12, e.mtime)
      && h[257..262] == USTAR && h[262] == 0 && h[263..265] == [ZERO, ZERO]
  {
    var h, name := Header(e, len), FieldName(e);
    assert h[100..108] == OctalField(8, e.mode);
    assert h[108..116] == OctalField(8, 0) && h[116..124] == OctalField(8, 0);
    assert h[136..148] == OctalField(12, e.mtime);
    assert h[257..262] == USTAR && h[263..265] == [ZERO, ZERO];
    assert h[124..136] == OctalField(12, len);
    assert h[..100][..|name|] == name;
    assert |name| < 100 && h[|name|] == BlankByte(e, len, |name|) == 0;
    assert h[156] == BlankByte(e, len, 156) == ZERO;
  }

  lemma {:induction false} FieldsFit(len: nat)
    requires len < TWO32
    ensures len < Pow8(11)
  {
    assert Pow8(11) == 8 * Pow8(10) == 64 * Pow8(9) && Pow8(9) == 8 * Pow8(8) == 64 * Pow8(7);
    assert Pow8(7) == 8 * Pow8(6) == 64 * Pow8(5) && Pow8(5) == 8 * Pow8(4) == 64 * Pow8(3) && Pow8(3) == 512;
  }

  /** The header fields of a member, as the reader sees them. */
  lemma {:induction false} HeaderFields(t: Bytes, at: nat, e: Entry, data: Bytes)
    requires MemberAt(t, at, e, data) && Sound(e) && |data| + 511 < TWO32
    ensures FieldsAt(t, at) == Fields(FieldName(e), e.mode, |data|, ZERO)
    ensures t[at] == 0 <==> e.name == []
  {
    hide OctalValue, OctalField, CString, Header, Pow8;
    var h := Header(e, |data|);
    HeaderSlices(e, |data|);
    SubSlice(t, at, BLOCK, 0, 100);
    SubSlice(t, at, BLOCK, 100, 108);
    SubSlice(t, at, BLOCK, 124, 136);
    assert t[at + 156] == t[at..at + BLOCK][156];
    var name := FieldName(e);
    assert h[..100][|name|] == h[|name|];
    ReadsName(h[..100], name);
    ReadField(8, e.mode);
    FieldsFit(|data|);
    ReadField(12, |data|);
    assert t[at] == h[0];
    if e.name != [] {
      assert h[0] == h[..100][..|name|][0] == e.name[0];
    }
  }

  /** Reading a member: stop at an empty name, else a file with the name as stored. */
  lemma {:induction false} ReadsMember(t: Bytes, at: nat, e: Entry, data: Bytes)
    requires MemberAt(t, at, e, data) && Sound(e) && |data| + 511 < TWO32
    requires at + BLOCK + Round(|data|) <= |t|
    ensures e.name == [] ==> Extract(t, at) == []
    ensures e.name != [] ==>
      Extract(t, at) == [File(FieldName(e), e.mode, data)] + Extract(t, at + BLOCK + Round(|data|))
  {
    hide FieldsAt, Header, Round;
    HeaderFields(t, at, e, data);
    RoundIsExact(|data|);
    assert t[at + BLOCK..at + BLOCK + |data|] == data;
  }

  lemma {:induction false} ReadsEnd(t: Bytes, at: nat)
    requires at + 1024 == |t| && t[at..] == Zeros(1024)
    ensures Extract(t, at) == []
  {
    assert t[at] == t[at..][0];
  }

  /** Reading an archive from any offset gives the files back, iff every name fits. */
  lemma {:induction false} ReadsArchive(t: Bytes, at: nat, es: seq<Entry>)
    requires at <= |t| && t[at..] == Archive(es)
    requires forall i :: 0 <= i < |es| ==> Sound(es[i])
    ensures Extract(t, at) == Files(es) <==> forall i :: 0 <= i < |es| && es[i].contents.Some? ==> NameFits(es[i])
    decreases |es|
  {
    hide Extract, Round, Header;
    if es == [] {
      ReadsEnd(t, at);
    } else if es[0].contents.None? {
      assert t[at..] == Archive(es[1..]);
      ReadsArchive(t, at, es[1..]);
      assert forall i :: 0 < i < |es| ==> es[i] == es[1..][i - 1];
    } else {
      var e, data := es[0], es[0].contents.value;
      var next := at + BLOCK + Round(|data|);
      MemberStands(t, at, e, data, Archive(es[1..]));
      ReadsMember(t, at, e, data);
      ReadsArchive(t, next, es[1..]);
      assert forall i :: 0 < i < |es| ==> es[i] == es[1..][i - 1];
      FirstName(e);
      assert Files(es) == [File(e.name, e.mode, data)] + Files(es[1..]);
      if e.name != [] {
        SameHead(File(FieldName(e), e.mode, data), Extract(t, next), File(e.name, e.mode, data), Files(es[1..]));
      }
    }
  }

  lemma {:induction false} FirstName(e: Entry)
    ensures FieldName(e) == e.name <==> |e.name| <= 99
  {
  }

  lemma {:induction false} SameHead(x: Item, xs: seq<Item>, y: Item, ys: seq<Item>)
    ensures [x] + xs == [y] + ys <==> x == y && xs == ys
  {
    if [x] + xs == [y] + ys {
      assert ([x] + xs)[0] == x && ([y] + ys)[0] == y;
      assert ([x] + xs)[1..] == xs && ([y] + ys)[1..] == ys;
    }
  }

  lemma {:induction false} MemberStands(t: Bytes, at: nat, e: Entry, data: Bytes, rest: Bytes)
    requires at <= |t| && t[at..] == Member(e, data) + rest && |data| + 511 < TWO32
    ensures at + BLOCK + Round(|data|) <= |t|
    ensures MemberAt(t, at, e, data)
    ensures t[at + BLOCK + Round(|data|)..] == rest
  {
    RoundIsExact(|data|);
    hide Round, Header;
    var m := Member(e, data);
    var n := Round(|data|);
    assert |m| == BLOCK + n;
    var s := t[at..];
    assert s[..BLOCK] == m[..BLOCK] == Header(e, |data|);
    assert s[BLOCK..BLOCK + |data|] == m[BLOCK..BLOCK + |data|] == data;
    assert s[BLOCK + n..] == rest;
    assert t[at..at + BLOCK] == s[..BLOCK];
    assert t[at + BLOCK..at + BLOCK + |data|] == s[BLOCK..BLOCK + |data|];
    assert t[at + BLOCK + n..] == s[BLOCK + n..];
  }

  /** `read_tar` of `build_tar`: the same names, modes and data in order, exactly when every
      name of a packed file has 1 to 99 bytes. */
  lemma {:induction false} TarRoundTrip(es: seq<Entry>)
    requires forall i :: 0 <= i < |es| ==> Sound(es[i])
    ensures Extract(Archive(es), 0) == Files(es)
       <==> forall i :: 0 <= i < |es| && es[i].contents.Some? ==> NameFits(es[i])
  {
    assert Archive(es)[0..] == Archive(es);
    ReadsArchive(Archive(es), 0, es);
  }

  // ----- the writer -----

  /** s with p written over it at `at`. */
  function Patch(s: Bytes, at: nat, p: Bytes): (r: Bytes)
    requires at + |p| <= |s|
    ensures |r| == |s|
  {
    seq(|s|, i requires 0 <= i < |s| => if at <= i < at + |p| then p[i - at] else s[i])
  }

  lemma {:induction false} PatchOne(s: Bytes, at: nat, p: Bytes, i: nat, r: Bytes)
    requires at + |p| <= |s| && i < |p| && |r| == |s|
    requires r == Patch(s, at + i + 1, p[i + 1..])[at + i := p[i]]
    ensures r == Patch(s, at + i, p[i..])
  {
  }

  /** tar_octal: digits from the right, each the low three bits of what is left. */
  method TarOctal(buf: array<Byte>, at: nat, width: nat, value: nat)
    requires width > 0 && at + width <= buf.Length
    modifies buf
    ensures buf[..] == Patch(old(buf[..]), at, OctalField(width, value))
  {
    hide OctalDigits;
    ghost var field := OctalField(width, value);
    var i, v := width - 1, value;
    buf[at + width - 1] := 0;
    PatchOne(old(buf[..]), at, field, width - 1, buf[..]);
    while i > 0
      invariant 0 <= i < width
      invariant buf[..] == Patch(old(buf[..]), at + i, field[i..])
      invariant field[..i] == OctalDigits(i, v)
    {
      LastDigit(i, v);
      buf[at + i - 1] := ZERO + v % 8;
      v := v / 8;
      i := i - 1;
      assert field[..i] == field[..i + 1][..i];
      PatchOne(old(buf[..]), at, field, i, buf[..]);
    }
    assert field[0..] == field;
  }

  lemma {:induction false} LastDigit(n: nat, v: nat)
    requires n > 0
    ensures OctalDigits(n, v)[n - 1] == ZERO + v % 8
    ensures OctalDigits(n, v)[..n - 1] == OctalDigits(n - 1, v / 8)
  {
  }

  /** memcpy. */
  method Copy(buf: array<Byte>, at: nat, p: Bytes)
    requires at + |p| <= buf.Length
    modifies buf
    ensures buf[..] == Patch(old(buf[..]), at, p)
  {
    var i := 0;
    while i < |p|
      invariant 0 <= i <= |p|
      invariant buf[..] == Patch(old(buf[..]), at, p[..i])
    {
      buf[at + i] := p[i];
      i := i + 1;
    }
    assert p[..|p|] == p;
  }

  method SumOf(buf: array<Byte>, at: nat) returns (sum: nat)
    requires at + BLOCK <= buf.Length
    ensures sum == Sum(buf[at..at + BLOCK])
  {
    sum := 0;
    var k := 0;
    while k < BLOCK
      invariant 0 <= k <= BLOCK
      invariant sum == Sum(buf[at..at + k])
    {
      sum := sum + buf[at + k];
      k := k + 1;
      assert buf[at..at + k][..k - 1] == buf[at..at + k - 1];
    }
  }

  /** A write inside a block that was just written is a write to the block. */
  lemma {:induction false} Nest(s: Bytes, at: nat, h: Bytes, i: nat, p: Bytes)
    requires at + |h| <= |s| && i + |p| <= |h|
    ensures Patch(Patch(s, at, h), at + i, p) == Patch(s, at, Patch(h, i, p))
  {
  }

  function Spaces(): (r: Bytes)
    ensures |r| == 8
  {
    seq(8, _ => SPACE)
  }

  /** The header's writes before the checksum, in order. */
  function Blanked(e: Entry, len: nat): (r: Bytes)
    ensures |r| == BLOCK
  {
    var named := Patch(Zeros(BLOCK), 0, FieldName(e) + [0]);
    var owned := Patch(Patch(Patch(named, 100, OctalField(8, e.mode)), 108, OctalField(8, 0)), 116, OctalField(8, 0));
    var dated := Patch(Patch(owned, 124, OctalField(12, len)), 136, OctalField(12, e.mtime));
    Patch(Patch(Patch(Patch(dated, 156, [ZERO]), 257, USTAR), 263, [ZERO, ZERO]), 148, Spaces())
  }

  lemma {:induction false} BlankedIsBlank(e: Entry, len: nat)
    ensures Blanked(e, len) == BlankHeader(e, len)
  {
    hide OctalField;
    var b := Blanked(e, len);
    forall i | 0 <= i < BLOCK
      ensures b[i] == BlankByte(e, len, i)
    {
    }
  }

  lemma {:induction false} ChecksumPatched(e: Entry, len: nat)
    ensures var blank := BlankHeader(e, len);
      Patch(Patch(blank, 148, OctalField(7, Sum(blank))), 155, [SPACE]) == Header(e, len)
  {
    hide OctalField, Sum;
  }

  /** Write bytes into the header h that stands at `at`; the ghost result is the header then. */
  method PutBytes(buf: array<Byte>, at: nat, i: nat, p: Bytes, ghost s: Bytes, ghost h: Bytes) returns (ghost r: Bytes)
    requires |s| == buf.Length && at + |h| <= |s| && i + |p| <= |h|
    requires buf[..] == Patch(s, at, h)
    modifies buf
    ensures r == Patch(h, i, p) && buf[..] == Patch(s, at, r)
  {
    hide Patch;
    Nest(s, at, h, i, p);
    Copy(buf, at + i, p);
    r := Patch(h, i, p);
  }

  method PutOctal(buf: array<Byte>, at: nat, i: nat, width: nat, value: nat, ghost s: Bytes, ghost h: Bytes)
    returns (ghost r: Bytes)
    requires |s| == buf.Length && at + |h| <= |s| && width > 0 && i + width <= |h|
    requires buf[..] == Patch(s, at, h)
    modifies buf
    ensures r == Patch(h, i, OctalField(width, value)) && buf[..] == Patch(s, at, r)
  {
    hide Patch, OctalField;
    Nest(s, at, h, i, OctalField(width, value));
    TarOctal(buf, at + i, width, value);
    r := Patch(h, i, OctalField(width, value));
  }

  /** The header of one file, written field by field over whatever the buffer held; the
      checksum is summed from the buffer itself. */
  method BuildHeader(buf: array<Byte>, at: nat, e: Entry, len: nat)
    requires at + BLOCK <= buf.Length
    modifies buf
    ensures buf[..] == Patch(old(buf[..]), at, Header(e, len))
  {
    hide Patch, OctalField, Header, BlankHeader, Sum, Zeros, Spaces;
    ghost var s := buf[..];
    Copy(buf, at, Zeros(BLOCK));
    ghost var h := PutBytes(buf, at, 0, FieldName(e) + [0], s, Zeros(BLOCK));
    h := PutOctal(buf, at, 100, 8, e.mode, s, h);
    h := PutOctal(buf, at, 108, 8, 0, s, h);
    h := PutOctal(buf, at, 116, 8, 0, s, h);
    h := PutOctal(buf, at, 124, 12, len, s, h);
    h := PutOctal(buf, at, 136, 12, e.mtime, s, h);
    h := PutBytes(buf, at, 156, [ZERO], s, h);
    h := PutBytes(buf, at, 257, USTAR, s, h);
    h := PutBytes(buf, at, 263, [ZERO, ZERO], s, h);
    h := PutBytes(buf, at, 148, Spaces(), s, h);
    BlankedIsBlank(e, len);
    PatchedSlice(s, at, h);
    var sum := SumOf(buf, at);
    h := PutOctal(buf, at, 148, 7, sum, s, h);
    h := PutBytes(buf, at, 155, [SPACE], s, h);
    ChecksumPatched(e, len);
  }

  lemma {:induction false} PatchedSlice(s: Bytes, at: nat, h: Bytes)
    requires at + |h| <= |s|
    ensures Patch(s, at, h)[at..at + |h|] == h
    ensures Patch(s, at, h)[..at] == s[..at]
    ensures Patch(s, at, h)[at + |h|..] == s[at + |h|..]
  {
  }

  // ----- the whole archive -----

  /** The buffer room reserved for the entries, from what stat said. */
  function Room(es: seq<Entry>): nat
    decreases |es|
  {
    if es == [] then 0 else BLOCK + Round(es[0].size) + Room(es[1..])
  }

  /** Where the writer stands before entry i: it moves by the lengths it read, not by what stat said. */
  function OffsetAt(es: seq<Entry>, i: nat): nat
    requires i <= |es|
  {
    if i == 0 then 0
    else OffsetAt(es, i - 1) + match es[i - 1].contents
                               case None => 0
                               case Some(data) => BLOCK + Round(|data|)
  }

  /** The bytes of file i are copied inside the buffer. */
  predicate CopyFits(es: seq<Entry>, i: nat)
    requires i < |es|
  {
    es[i].contents.Some? ==> OffsetAt(es, i) + BLOCK + |es[i].contents.value| <= 8192 + Room(es)
  }

  /** Every write, and the end of the archive, lies inside the buffer. */
  predicate InBounds(es: seq<Entry>) {
    (forall i :: 0 <= i < |es| ==> CopyFits(es, i)) && OffsetAt(es, |es|) + 1024 <= 8192 + Room(es)
  }

  /** Every length is small enough for the 32-bit mask. */
  predicate AllExact(es: seq<Entry>) {
    forall i :: 0 <= i < |es| && es[i].contents.Some? ==> |es[i].contents.value| + 511 < TWO32
  }

  /** The file did not grow after stat, and is small enough for the 32-bit mask. */
  predicate Fits(e: Entry) {
    e.contents.Some? ==> |e.contents.value| <= e.size && e.size + 511 < TWO32
  }

  lemma {:induction false} RoomForMember(e: Entry, n: nat)
    requires n <= e.size && e.size + 511 < TWO32
    ensures n <= Round(n) <= Round(e.size)
  {
    RoundIsExact(n);
    assert (n + 511) % TWO32 == n + 511 && (e.size + 511) % TWO32 == e.size + 511;
  }

  /** Files that did not grow leave the writer where there is room for the others. */
  lemma {:induction false} RoomLeft(es: seq<Entry>, i: nat)
    requires i <= |es| && forall j :: 0 <= j < i ==> Fits(es[j])
    ensures OffsetAt(es, i) + Room(es[i..]) <= Room(es)
    decreases i
  {
    hide Round;
    if i == 0 {
      assert es[0..] == es;
    } else {
      RoomLeft(es, i - 1);
      assert es[i - 1..][1..] == es[i..];
      assert Fits(es[i - 1]);
      if es[i - 1].contents.Some? {
        RoomForMember(es[i - 1], |es[i - 1].contents.value|);
      }
    }
  }

  /** As long as no file grew after stat, the buffer is large enough. */
  lemma {:induction false} NotGrownFits(es: seq<Entry>)
    requires forall i :: 0 <= i < |es| ==> Fits(es[i])
    ensures InBounds(es) && AllExact(es)
  {
    hide Round, OffsetAt, Room;
    forall i | 0 <= i < |es|
      ensures CopyFits(es, i)
    {
      RoomLeft(es, i);
      RoomStep(es, i);
      assert Fits(es[i]);
      if es[i].contents.Some? {
        RoomForMember(es[i], |es[i].contents.value|);
      }
    }
    RoomLeft(es, |es|);
    forall i | 0 <= i < |es| && es[i].contents.Some?
      ensures |es[i].contents.value| + 511 < TWO32
    {
      assert Fits(es[i]);
    }
  }

  lemma {:induction false} RoomStep(es: seq<Entry>, i: nat)
    requires i < |es|
    ensures Room(es[i..]) == BLOCK + Round(es[i].size) + Room(es[i + 1..])
  {
    assert es[i..][1..] == es[i + 1..] && es[i..][0] == es[i];
  }

  /** A file that grew can run over it: a single one does exactly when its rounded length passes
      the rounded length stat gave by more than 7168 bytes. */
  lemma {:induction false} OneFileMayGrow(e: Entry)
    requires e.contents.Some? && |e.contents.value| + 511 < TWO32
    ensures InBounds([e]) <==> Round(|e.contents.value|) <= Round(e.size) + 7168
  {
    hide Round;
    RoundIsExact(|e.contents.value|);
    assert [e][1..] == [];
    assert Room([e]) == BLOCK + Round(e.size);
    assert OffsetAt([e], 1) == BLOCK + Round(|e.contents.value|);
    if InBounds([e]) {
      assert CopyFits([e], 0);
    }
  }

  lemma {:induction false} GrownFileOverruns(e: Entry)
    requires e.contents.Some? && e.size == 0 && |e.contents.value| == 7169
    ensures !InBounds([e])
  {
    OneFileMayGrow(e);
  }

  /** Header and data over a zeroed rest make one member, padding included. */
  lemma {:induction false} MemberWritten(s: Bytes, at: nat, e: Entry, data: Bytes)
    requires |data| <= Round(|data|) && at + BLOCK + Round(|data|) <= |s|
    requires s[at..] == Zeros(|s| - at)
    ensures var t := Patch(Patch(s, at, Header(e, |data|)), at + BLOCK, data);
      && t[..at + BLOCK + Round(|data|)] == s[..at] + Member(e, data)
      && t[at + BLOCK + Round(|data|)..] == Zeros(|s| - (at + BLOCK + Round(|data|)))
  {
    hide Header, Round;
    var t := Patch(Patch(s, at, Header(e, |data|)), at + BLOCK, data);
    var next := at + BLOCK + Round(|data|);
    assert forall i :: at <= i < |s| ==> s[i] == s[at..][i - at] == 0;
    assert t[..next] == s[..at] + Member(e, data);
    assert t[next..] == Zeros(|s| - next);
  }

  method Capacity(es: seq<Entry>) returns (cap: nat)
    ensures cap == 8192 + Room(es)
  {
    hide Round;
    cap := 8192;
    var k := 0;
    assert es[0..] == es;
    while k < |es|
      invariant 0 <= k <= |es|
      invariant cap + Room(es[k..]) == 8192 + Room(es)
    {
      cap := cap + BLOCK + Round(es[k].size);
      k := k + 1;
      assert es[k - 1..][1..] == es[k..];
    }
  }

  /** What is left to write from entry i on. */
  lemma {:induction false} Next(es: seq<Entry>, i: nat)
    requires i < |es|
    ensures Archive(es[i..])
      == (if es[i].contents.Some? then Member(es[i], es[i].contents.value) else []) + Archive(es[i + 1..])
  {
    hide Member;
    assert es[i..][1..] == es[i + 1..] && es[i..][0] == es[i];
  }

  /** The bytes before `at` are what was written of the archive, and the rest is zero. */
  ghost predicate Written(s: Bytes, at: nat, es: seq<Entry>, i: nat)
    requires i <= |es|
  {
    at <= |s| ==> s[at..] == Zeros(|s| - at) && s[..at] + Archive(es[i..]) == Archive(es)
  }

  /** build_tar.  The source has no bounds check: `ok` says that every write, and what is handed
      on, stays inside the buffer whose size was fixed beforehand.  Then it holds the archive. */
  method BuildTar(es: seq<Entry>) returns (ok: bool, buf: array<Byte>, len: nat)
    ensures fresh(buf) && buf.Length == 8192 + Room(es)
    ensures ok <==> InBounds(es)
    ensures ok ==> len == OffsetAt(es, |es|) + 1024 <= buf.Length
    ensures ok && AllExact(es) ==> buf[..len] == Archive(es)
  {
    hide Round, Header, Patch, Member, Zeros, Room, Archive;
    var cap := Capacity(es);
    buf := new Byte[cap](_ => 0);
    ok, len := false, 0;
    var at, i := 0, 0;
    ZerosMade(buf[..]);
    assert buf[..][0..] == buf[..] && buf[..][..0] == [] && es[0..] == es;
    while i < |es|
      invariant 0 <= i <= |es| && at == OffsetAt(es, i)
      invariant forall j :: 0 <= j < i ==> CopyFits(es, j)
      invariant AllExact(es) ==> Written(buf[..], at, es, i)
    {
      ghost var before := buf[..];
      if es[i].contents.Some? {
        if at + BLOCK + |es[i].contents.value| > cap {
          assert !CopyFits(es, i);
          return;
        }
        at := AppendMember(buf, at, es[i], es[i].contents.value);
      }
      if AllExact(es) {
        WrittenStep(before, buf[..], es, i);
      }
      i := i + 1;
    }
    if at + 1024 > cap {
      return;
    }
    ok, len := true, at + 1024;
    if AllExact(es) {
      WrittenAll(buf[..], at, es);
      assert buf[..len] == buf[..][..len];
    }
  }

  /** One member more. */
  lemma {:induction false} WrittenStep(before: Bytes, s: Bytes, es: seq<Entry>, i: nat)
    requires i < |es| && AllExact(es) && Written(before, OffsetAt(es, i), es, i)
    requires |s| == |before|
    requires match es[i].contents
      case None => s == before
      case Some(data) =>
        && OffsetAt(es, i) + BLOCK + |data| <= |s|
        && s == Patch(Patch(before, OffsetAt(es, i), Header(es[i], |data|)), OffsetAt(es, i) + BLOCK, data)
    ensures Written(s, OffsetAt(es, i + 1), es, i + 1)
  {
    hide Round, Header, Patch, Member, Zeros, Archive;
    Next(es, i);
    var at, next := OffsetAt(es, i), OffsetAt(es, i + 1);
    if next <= |s| && es[i].contents.Some? {
      var data := es[i].contents.value;
      RoundIsExact(|data|);
      MemberWritten(before, at, es[i], data);
      assert s[..next] + Archive(es[i + 1..]) == before[..at] + (Member(es[i], data) + Archive(es[i + 1..]));
    }
  }

  lemma {:induction false} WrittenAll(s: Bytes, at: nat, es: seq<Entry>)
    requires Written(s, at, es, |es|) && at + 1024 <= |s|
    ensures s[..at + 1024] == Archive(es)
  {
    hide Zeros, Archive;
    assert es[|es|..] == [];
    ArchiveEnd();
    ZerosPrefix(s, at);
  }

  lemma {:induction false} ArchiveEnd()
    ensures Archive([]) == Zeros(1024)
  {
  }

  lemma {:induction false} ZerosMade(s: Bytes)
    requires forall i :: 0 <= i < |s| ==> s[i] == 0
    ensures s == Zeros(|s|)
  {
  }

  lemma {:induction false} ZerosPrefix(s: Bytes, at: nat)
    requires at + 1024 <= |s| && s[at..] == Zeros(|s| - at)
    ensures s[..at + 1024] == s[..at] + Zeros(1024)
  {
    assert forall i :: at <= i < |s| ==> s[i] == s[at..][i - at] == 0;
  }

  /** One turn of the writing loop. */
  method AppendMember(buf: array<Byte>, at: nat, e: Entry, data: Bytes) returns (next: nat)
    requires at + BLOCK + |data| <= buf.Length
    modifies buf
    ensures next == at + BLOCK + Round(|data|)
    ensures buf[..] == Patch(Patch(old(buf[..]), at, Header(e, |data|)), at + BLOCK, data)
  {
    hide Round, Header, Patch;
    BuildHeader(buf, at, e, |data|);
    Copy(buf, at + BLOCK, data);
    next := at + BLOCK + Round(|data|);
  }

  // ----- the reader -----

  /** The reader's digit loop. */
  method ReadOctal(t: Bytes, at: nat, width: nat) returns (v: nat)
    requires at + width <= |t|
    ensures v == OctalValue(0, t[at..at + width])
  {
    v := 0;
    var i := 0;
    while i < width && IsOctal(t[at + i])
      invariant 0 <= i <= width
      invariant OctalValue(v, t[at + i..at + width]) == OctalValue(0, t[at..at + width])
    {
      assert t[at + i..at + width][1..] == t[at + i + 1..at + width];
      v := v * 8 + (t[at + i] - ZERO);
      i := i + 1;
    }
  }

  lemma {:induction false} ExtractStops(t: Bytes, at: nat)
    requires at + BLOCK <= |t| ==> t[at] == 0 || (var f := FieldsAt(t, at); IsFile(f) && at + BLOCK + f.size > |t|)
    ensures Extract(t, at) == []
  {
  }

  lemma {:induction false} ExtractGoes(t: Bytes, at: nat)
    requires at + BLOCK <= |t| && t[at] != 0
    requires IsFile(FieldsAt(t, at)) ==> at + BLOCK + FieldsAt(t, at).size <= |t|
    ensures var f, body := FieldsAt(t, at), at + BLOCK;
      Extract(t, at) == Handed(t, body, f) + Extract(t, body + Round(f.size))
  {
    hide FieldsAt, Handed, Round;
  }

  /** read_tar: what is handed to the file system, in order. */
  method ReadTar(t: Bytes) returns (items: seq<Item>)
    ensures items == Extract(t, 0)
  {
    hide CString, OctalValue, Round, Extract;
    items := [];
    var at := 0;
    while at + BLOCK <= |t| && t[at] != 0
      invariant items + Extract(t, at) == Extract(t, 0)
    {
      var name := CString(t[at..at + 100]);
      var size := ReadOctal(t, at + 124, 12);
      var mode := ReadOctal(t, at + 100, 8);
      var kind := t[at + 156];
      ghost var f := FieldsAt(t, at);
      ghost var before, body := items, at + BLOCK;
      if kind == 53 {
        items := items + [Directory(name)];
      } else if kind == ZERO || kind == 0 {
        if at + BLOCK + size > |t| {
          ExtractStops(t, at);
          return;
        }
        items := items + [File(name, mode, t[at + BLOCK..at + BLOCK + size])];
      }
      ExtractGoes(t, at);
      assert items == before + Handed(t, body, f);
      at := at + BLOCK + Round(size);
      HandOver(before, Handed(t, body, f), Extract(t, at), Extract(t, 0));
    }
    ExtractStops(t, at);
  }
}
