/** arc's gzip files: create_gz around raw_deflate, gunzip around inflate_run. */
module Gzip {

  import opened Wrappers
  import opened Bits
  import opened Inflate
  import opened DeflateRun
  import Zip

  const HEAD: seq<Byte> := [0x1f, 0x8b, 8, 0, 0, 0, 0, 0, 0, 3]

  /** The file: a header without options, the packed data, its checksum and its length. */
  function GzFile(packed: seq<Byte>, data: seq<Byte>): seq<Byte> {
    HEAD + packed + Zip.Le32(Zip.CrcOf(data)) + Zip.Le32(|data|)
  }

  /** Behind a text that ends in a zero byte. */
  function SkipText(z: seq<Byte>, at: nat): nat
    decreases |z| - at
  {
    if at < |z| && z[at] != 0 then SkipText(z, at + 1) else at + 1
  }

  predicate Flag(flags: Byte, bit: nat)
    requires bit > 0
  {
    flags / bit % 2 == 1
  }

  /** Where the packed data starts: behind an extra field, a name, a comment and a header
      checksum, each if its flag says so. */
  function DataStart(z: seq<Byte>): nat
    requires |z| >= 18
  {
    var flags := z[3];
    var extra := if Flag(flags, 4) then 12 + (z[10] as int + 256 * z[11] as int) else 10;
    var name := if Flag(flags, 8) then SkipText(z, extra) else extra;
    var comment := if Flag(flags, 16) then SkipText(z, name) else name;
    if Flag(flags, 2) then comment + 2 else comment
  }

  /** gunzip. */
  function Gunzip(z: seq<Byte>): Inflated {
    if |z| < 18 || z[0] != 0x1f || z[1] != 0x8b || z[2] != 8 then Broken
    else
      var at := DataStart(z);
      if at >= |z| then Broken else InflateBytes(z[at..])
  }

  /** Unpacking what was packed gives the file back. */
  lemma {:induction false} GzRoundTrip(packed: seq<Byte>, data: seq<Byte>)
    requires Encodes(packed, data)
    ensures Gunzip(GzFile(packed, data)) == Whole(data)
  {
    hide Encodes, InflateBytes, Zip.CrcOf, Zip.Le32, SkipText;
    var trailer := Zip.Le32(Zip.CrcOf(data)) + Zip.Le32(|data|);
    var z := GzFile(packed, data);
    InflateInverts(packed, data, trailer);
    assert z == HEAD + (packed + trailer);
    assert z[10..] == packed + trailer;
    assert z[..10] == HEAD;
    assert z[0] == HEAD[0] && z[1] == HEAD[1] && z[2] == HEAD[2] && z[3] == HEAD[3] == 0;
  }

  /** A .gz starts as one. */
  lemma {:induction false} GzHead(packed: seq<Byte>, data: seq<Byte>)
    ensures var z := GzFile(packed, data); |z| >= 18 && z[0] == 0x1f && z[1] == 0x8b
  {
    hide Zip.CrcOf, Zip.Le32;
    var z := GzFile(packed, data);
    assert z[0] == HEAD[0] && z[1] == HEAD[1];
  }

  /** The last eight bytes: the checksum and the length of the data, each modulo 2^32. */
  lemma {:induction false} GzTrailer(packed: seq<Byte>, data: seq<Byte>)
    ensures var z := GzFile(packed, data);
      && |z| >= 18
      && Zip.Get32(z, |z| - 8) == Zip.CrcOf(data) % 0x1_0000_0000
      && Zip.Get32(z, |z| - 4) == |data| % 0x1_0000_0000
  {
    hide Zip.CrcOf, Zip.Le32, Zip.Get32;
    var z := GzFile(packed, data);
    var front, crc, len := HEAD + packed, Zip.Le32(Zip.CrcOf(data)), Zip.Le32(|data|);
    assert z == front + crc + len;
    assert z[|z| - 8..|z| - 8 + 4] == crc;
    assert z[|z| - 4..|z| - 4 + 4] == len;
    Zip.Get32Back(z, |z| - 8, Zip.CrcOf(data));
    Zip.Get32Back(z, |z| - 4, |data|);
  }

  // ----- headers with options -----

  /** An extra field: its length in two bytes, low byte first, then its bytes. */
  function ExtraField(extra: Option<seq<Byte>>): seq<Byte>
    requires extra.Some? ==> |extra.value| < 65536
  {
    if extra.None? then []
    else [(|extra.value| % 256) as Byte, (|extra.value| / 256) as Byte] + extra.value
  }

  /** A name or a comment, which a zero byte ends. */
  function TextField(text: Option<seq<Byte>>): seq<Byte> {
    if text.None? then [] else text.value + [0]
  }

  /** The checksum of the header. */
  function SumField(sum: Option<(Byte, Byte)>): seq<Byte> {
    if sum.None? then [] else [sum.value.0, sum.value.1]
  }

  /** What may stand between the ten bytes of the header and the packed data. */
  datatype Options = Options(
    extra: Option<seq<Byte>>,
    name: Option<seq<Byte>>,
    comment: Option<seq<Byte>>,
    sum: Option<(Byte, Byte)>)

  function OptionBytes(o: Options): seq<Byte>
    requires o.extra.Some? ==> |o.extra.value| < 65536
  {
    ExtraField(o.extra) + TextField(o.name) + TextField(o.comment) + SumField(o.sum)
  }

  /** The options can be written, and the flags of the header say which are there. */
  ghost predicate Announced(head: seq<Byte>, o: Options) {
    && |head| == 10
    && head[0] == 0x1f
    && head[1] == 0x8b
    && head[2] == 8
    && (o.sum.Some? <==> head[3] as int / 2 % 2 == 1)
    && (o.extra.Some? <==> head[3] as int / 4 % 2 == 1)
    && (o.name.Some? <==> head[3] as int / 8 % 2 == 1)
    && (o.comment.Some? <==> head[3] as int / 16 % 2 == 1)
    && (o.extra.Some? ==> |o.extra.value| < 65536)
    && (o.name.Some? ==> 0 !in o.name.value)
    && (o.comment.Some? ==> 0 !in o.comment.value)
  }

  lemma {:induction false} SkipsText(z: seq<Byte>, at: nat, text: seq<Byte>)
    requires at + |text| < |z| && z[at..at + |text| + 1] == text + [0] && 0 !in text
    ensures SkipText(z, at) == at + |text| + 1
    decreases |text|
  {
    assert z[at] == z[at..at + |text| + 1][0];
    if text != [] {
      assert text[0] in text;
      assert z[at + 1..at + |text| + 1] == z[at..at + |text| + 1][1..] == text[1..] + [0];
      SkipsText(z, at + 1, text[1..]);
    }
  }

  /** Behind a text that is there if its flag is. */
  lemma {:induction false} SkipsField(z: seq<Byte>, at: nat, text: Option<seq<Byte>>, rest: seq<Byte>)
    requires at <= |z| && z[at..] == TextField(text) + rest && (text.Some? ==> 0 !in text.value)
    ensures (if text.Some? then SkipText(z, at) else at) == at + |TextField(text)|
    ensures z[at + |TextField(text)|..] == rest
  {
    var n := |TextField(text)|;
    assert z[at + n..] == z[at..][n..];
    if text.Some? {
      assert z[at..at + n] == z[at..][..n];
      SkipsText(z, at, text.value);
    }
  }

  lemma {:induction false} SkipsExtra(z: seq<Byte>, extra: Option<seq<Byte>>, rest: seq<Byte>)
    requires 10 <= |z| && (extra.Some? ==> |extra.value| < 65536) && z[10..] == ExtraField(extra) + rest
    ensures extra.Some? ==> |z| >= 12 && 12 + (z[10] as int + 256 * z[11] as int) == 10 + |ExtraField(extra)|
    ensures extra.None? ==> ExtraField(extra) == []
    ensures z[10 + |ExtraField(extra)|..] == rest
  {
    var n := |ExtraField(extra)|;
    assert z[10 + n..] == z[10..][n..];
    if extra.Some? {
      assert z[10] == z[10..][0] && z[11] == z[10..][1];
    }
  }

  lemma {:induction false} FlagsSay(head: seq<Byte>, o: Options)
    requires Announced(head, o)
    ensures Flag(head[3], 2) == o.sum.Some? && Flag(head[3], 4) == o.extra.Some?
    ensures Flag(head[3], 8) == o.name.Some? && Flag(head[3], 16) == o.comment.Some?
  {
  }

  lemma {:induction false} OptionsInTurn(o: Options, rest: seq<Byte>)
    requires o.extra.Some? ==> |o.extra.value| < 65536
    ensures var e, n, c, m := ExtraField(o.extra), TextField(o.name), TextField(o.comment), SumField(o.sum);
      && OptionBytes(o) + rest == e + (n + (c + (m + rest)))
      && |OptionBytes(o)| == |e| + |n| + |c| + |m|
  {
    hide ExtraField, TextField, SumField;
  }

  /** The start of the data from where each option ends. */
  lemma {:induction false} StartInTurn(z: seq<Byte>, o: Options, e: nat, n: nat, c: nat)
    requires |z| >= 18 && Announced(z[..10], o)
    requires e == if o.extra.Some? then 12 + (z[10] as int + 256 * z[11] as int) else 10
    requires n == if o.name.Some? then SkipText(z, e) else e
    requires c == if o.comment.Some? then SkipText(z, n) else n
    ensures DataStart(z) == c + |SumField(o.sum)|
  {
    hide SkipText, Flag, Announced;
    FlagsSay(z[..10], o);
    assert z[..10][3] == z[3];
  }

  lemma {:induction false} DataBehindOptions(z: seq<Byte>, o: Options, rest: seq<Byte>)
    requires |z| >= 18 && Announced(z[..10], o) && z[10..] == OptionBytes(o) + rest
    ensures DataStart(z) == 10 + |OptionBytes(o)| <= |z| && z[DataStart(z)..] == rest
  {
    hide SkipText, TextField, ExtraField, OptionBytes, DataStart, SumField, Announced;
    HeadBytes(z[..10], o);
    OptionsInTurn(o, rest);
    DropPrefix(z, 10, OptionBytes(o), rest);
    var n, c, m := TextField(o.name), TextField(o.comment), SumField(o.sum);
    var e := 10 + |ExtraField(o.extra)|;
    var afterName := c + (m + rest);
    SkipsExtra(z, o.extra, n + afterName);
    SkipsField(z, e, o.name, afterName);
    SkipsField(z, e + |n|, o.comment, m + rest);
    StartInTurn(z, o, e, e + |n|, e + |n| + |c|);
  }

  lemma {:induction false} DropPrefix(z: seq<Byte>, at: nat, front: seq<Byte>, rest: seq<Byte>)
    requires at <= |z| && z[at..] == front + rest
    ensures at + |front| <= |z| && z[at + |front|..] == rest
  {
    assert z[at + |front|..] == z[at..][|front|..];
  }

  /** gunzip finds the data behind any options, whatever else the header and the trailer say. */
  lemma {:induction false} GunzipWithOptions(
      head: seq<Byte>, o: Options, packed: seq<Byte>, data: seq<Byte>, trailer: seq<Byte>)
    requires Announced(head, o) && Encodes(packed, data) && |trailer| == 8
    ensures Gunzip(head + OptionBytes(o) + packed + trailer) == Whole(data)
  {
    hide Encodes, InflateBytes, DataStart, OptionBytes, Announced;
    HeadBytes(head, o);
    var z := head + OptionBytes(o) + packed + trailer;
    InflateInverts(packed, data, trailer);
    assert z[..10] == head;
    assert z[10..] == OptionBytes(o) + (packed + trailer);
    DataBehindOptions(z, o, packed + trailer);
  }

  lemma {:induction false} HeadBytes(head: seq<Byte>, o: Options)
    requires Announced(head, o)
    ensures |head| == 10 && head[0] == 0x1f && head[1] == 0x8b && head[2] == 8
    ensures o.extra.Some? ==> |o.extra.value| < 65536
    ensures (o.name.Some? ==> 0 !in o.name.value) && (o.comment.Some? ==> 0 !in o.comment.value)
  {
  }

  method SkipString(z: seq<Byte>, at: nat) returns (r: nat)
    ensures r == SkipText(z, at)
  {
    r := at;
    while r < |z| && z[r] != 0
      invariant SkipText(z, r) == SkipText(z, at)
      decreases |z| - r
    {
      r := r + 1;
    }
    r := r + 1;
  }

  /** gunzip, option by option. */
  method GunzipFile(z: seq<Byte>) returns (r: Inflated)
    ensures r == Gunzip(z)
  {
    hide SkipText, InflateBytes;
    if |z| < 18 || z[0] != 0x1f || z[1] != 0x8b || z[2] != 8 {
      return Broken;
    }
    var flags := z[3];
    var off := 10;
    if Flag(flags, 4) {
      off := off + 2 + (z[off] as int + 256 * z[off + 1] as int);
    }
    if Flag(flags, 8) {
      off := SkipString(z, off);
    }
    if Flag(flags, 16) {
      off := SkipString(z, off);
    }
    if Flag(flags, 2) {
      off := off + 2;
    }
    if off >= |z| {
      return Broken;
    }
    r := InflateRun(z[off..]);
  }
}
