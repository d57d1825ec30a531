/**
 fdisk's partition table editor.  New partitions are placed first-fit at the lowest free
 multiple of 2048 sectors and reach at most to the next partition or the last usable
 sector.  Whatever is typed, partitions stay apart and within the disk, on every disk
 that is large enough for its label at all.
 */
module Fdisk {
  import opened Wrappers
  import opened Libc

  const MAX_MBR_PARTS: nat := 4
  const MAX_GPT_PARTS: nat := 16
  const ALIGN_LBA: nat := 2048

  datatype Part = Part(used: bool, bootable: bool, kind: int, first: nat, last: nat, name: string) {
    predicate Covers(lba: nat) {
      used && first <= lba <= last
    }
  }

  const EMPTY := Part(false, false, 0, 0, 0, "")

  /** 64-bit wrap-around. */
  function Wrap(x: int): nat {
    x % TWO64
  }

  // ----- what a good table is -----

  /** Sectors from the end of the disk that the label keeps for itself. */
  function Reserved(gpt: bool): nat {
    if gpt then 34 else 1
  }

  /** The last sector a partition may use, in exact arithmetic. */
  function LastUsable(total: nat, gpt: bool): int {
    total - Reserved(gpt)
  }

  ghost predicate Disjoint(parts: seq<Part>) {
    forall i, j :: 0 <= i < j < |parts| && parts[i].used && parts[j].used ==>
      parts[i].last < parts[j].first || parts[j].last < parts[i].first
  }

  ghost predicate InBounds(parts: seq<Part>, limit: int) {
    forall i :: 0 <= i < |parts| && parts[i].used ==> parts[i].first <= parts[i].last && parts[i].last <= limit
  }

  ghost predicate Free(parts: seq<Part>, lba: nat) {
    forall i :: 0 <= i < |parts| ==> !parts[i].Covers(lba)
  }

  /** No partition touches a whole range. */
  ghost predicate FreeRange(parts: seq<Part>, first: nat, last: nat) {
    forall i :: 0 <= i < |parts| && parts[i].used ==> parts[i].last < first || last < parts[i].first
  }

  // ----- first fit -----

  function RoundUp(lba: nat): (r: nat)
    ensures r >= lba && r % ALIGN_LBA == 0 && r < lba + ALIGN_LBA
  {
    if lba % ALIGN_LBA != 0 then (lba / ALIGN_LBA + 1) * ALIGN_LBA else lba
  }

  /** An aligned sector that is not past a partition's end rounded up lies inside it. */
  lemma {:induction false} NothingBetween(start: nat, last: nat, x: nat)
    requires start <= x < RoundUp(last + 1) && x % ALIGN_LBA == 0
    ensures x <= last
  {
    var r := RoundUp(last + 1);
    var a, b := r / ALIGN_LBA, x / ALIGN_LBA;
    assert r == a * ALIGN_LBA && x == b * ALIGN_LBA;
    assert x + ALIGN_LBA <= r;
  }

  /** How many partitions end at or after a sector: the measure of the outer loop. */
  ghost function EndingFrom(parts: seq<Part>, lba: nat): nat {
    if parts == [] then 0
    else (if parts[0].used && parts[0].last >= lba then 1 else 0) + EndingFrom(parts[1..], lba)
  }

  lemma {:induction false} EndingFromShrinks(parts: seq<Part>, a: nat, b: nat)
    requires a <= b
    ensures EndingFrom(parts, b) <= EndingFrom(parts, a)
    decreases |parts|
  {
    if parts != [] {
      EndingFromShrinks(parts[1..], a, b);
    }
  }

  lemma {:induction false} EndingFromDrops(parts: seq<Part>, a: nat, b: nat, i: nat)
    requires a <= b && i < |parts| && parts[i].used && a <= parts[i].last < b
    ensures EndingFrom(parts, b) < EndingFrom(parts, a)
    decreases |parts|
  {
    if i == 0 {
      EndingFromShrinks(parts[1..], a, b);
    } else {
      EndingFromDrops(parts[1..], a, b, i - 1);
    }
  }

  /** Every aligned sector from 2048 up to `start` is taken. */
  ghost predicate TakenBelow(parts: seq<Part>, start: nat) {
    forall x: nat :: ALIGN_LBA <= x < start && x % ALIGN_LBA == 0 ==> !Free(parts, x)
  }

  lemma {:induction false} TakenNone(parts: seq<Part>)
    ensures TakenBelow(parts, ALIGN_LBA)
  {
  }

  lemma {:induction false} TakenJump(parts: seq<Part>, start: nat, i: nat)
    requires TakenBelow(parts, start) && i < |parts| && parts[i].Covers(start)
    ensures TakenBelow(parts, RoundUp(parts[i].last + 1))
  {
    forall x: nat | ALIGN_LBA <= x < RoundUp(parts[i].last + 1) && x % ALIGN_LBA == 0
      ensures !Free(parts, x)
    {
      if x >= start {
        NothingBetween(start, parts[i].last, x);
        assert parts[i].Covers(x);
      }
    }
  }

  /** The least aligned free sector at or above 2048. */
  ghost predicate IsFreeStart(parts: seq<Part>, start: nat) {
    start >= ALIGN_LBA && start % ALIGN_LBA == 0 && Free(parts, start) && TakenBelow(parts, start)
  }

  /** The end of the free range at `start`: the last usable sector or the one before the next partition. */
  ghost predicate IsFreeEnd(parts: seq<Part>, total: nat, gpt: bool, start: nat, end: nat) {
    && end <= Wrap(LastUsable(total, gpt))
    && (forall i :: 0 <= i < |parts| && parts[i].used && start < parts[i].first ==> end < parts[i].first)
    && (end == Wrap(LastUsable(total, gpt))
        || exists i :: 0 <= i < |parts| && parts[i].used && start < parts[i].first == end + 1)
  }

  method PastEnd(last: nat) returns (start: nat)
    requires last + ALIGN_LBA < TWO64
    ensures start == RoundUp(last + 1)
  {
    start := Wrap(last + 1);
    if start % ALIGN_LBA != 0 {
      start := Wrap((start / ALIGN_LBA + 1) * ALIGN_LBA);
    }
  }

  method FindFreeStart(parts: seq<Part>, total: nat, gpt: bool) returns (start: nat)
    requires InBounds(parts, LastUsable(total, gpt)) && total + ALIGN_LBA < TWO64
    ensures IsFreeStart(parts, start)
    ensures start == ALIGN_LBA || start < total + ALIGN_LBA
  {
    hide EndingFrom, TakenBelow;
    start := ALIGN_LBA;
    TakenNone(parts);
    var progressed := true;
    while progressed
      invariant start >= ALIGN_LBA && start % ALIGN_LBA == 0 && TakenBelow(parts, start)
      invariant start == ALIGN_LBA || start < total + ALIGN_LBA
      invariant !progressed ==> Free(parts, start)
      decreases EndingFrom(parts, start), progressed
    {
      progressed := false;
      ghost var before := start;
      for i := 0 to |parts|
        invariant before <= start && start % ALIGN_LBA == 0 && TakenBelow(parts, start)
        invariant start == ALIGN_LBA || start < total + ALIGN_LBA
        invariant !progressed ==> start == before && forall j :: 0 <= j < i ==> !parts[j].Covers(start)
        invariant progressed ==> EndingFrom(parts, start) < EndingFrom(parts, before)
      {
        if parts[i].used && start >= parts[i].first && start <= parts[i].last {
          TakenJump(parts, start, i);
          EndingFromShrinks(parts, before, start);
          EndingFromDrops(parts, start, RoundUp(parts[i].last + 1), i);
          start := PastEnd(parts[i].last);
          progressed := true;
        }
      }
    }
  }

  /**
   The last sector before the next partition, or the last one of the disk.  The sector
   count is unsigned: on a disk smaller than what the label reserves it wraps around.
   */
  method FindFreeEnd(parts: seq<Part>, total: nat, gpt: bool, start: nat) returns (end: nat)
    requires total < TWO64
    ensures IsFreeEnd(parts, total, gpt, start, end)
  {
    end := Wrap(total - 1);
    if gpt {
      end := Wrap(total - 34);
    }
    for i := 0 to |parts|
      invariant end <= Wrap(LastUsable(total, gpt))
      invariant forall j :: 0 <= j < i && parts[j].used && start < parts[j].first ==> end < parts[j].first
      invariant end == Wrap(LastUsable(total, gpt))
             || exists j :: 0 <= j < i && parts[j].used && start < parts[j].first == end + 1
    {
      if parts[i].used && parts[i].first > start && parts[i].first - 1 < end {
        end := parts[i].first - 1;
      }
    }
  }

  lemma {:induction false} FreeUpToEnd(parts: seq<Part>, total: nat, gpt: bool, start: nat, end: nat, last: nat)
    requires IsFreeStart(parts, start) && IsFreeEnd(parts, total, gpt, start, end) && start <= last <= end
    ensures FreeRange(parts, start, last)
  {
    forall i | 0 <= i < |parts| && parts[i].used
      ensures parts[i].last < start || last < parts[i].first
    {
      assert !parts[i].Covers(start);
    }
  }

  // ----- sizes -----

  function SkipBlanks(s: string): (r: string)
    ensures |r| <= |s|
  {
    if s != [] && IsSpace(s[0]) then SkipBlanks(s[1..]) else s
  }

  /** What `strtoull` reads: blanks, one sign, then digits.  A minus sign has no effect. */
  function AfterSign(s: string): string {
    var t := SkipBlanks(s);
    if t != [] && (t[0] == '-' || t[0] == '+') then t[1..] else t
  }

  /** Bytes of a unit, for the suffixes the prompt advertises. */
  function Unit(suffix: string): nat {
    if suffix == "MiB" || suffix == "M" then 0x10_0000
    else if suffix == "GiB" || suffix == "G" then 0x4000_0000
    else if suffix == "KiB" || suffix == "K" then 0x400
    else 512
  }

  /** The number of sectors a size text asks for. */
  function SizeOf(s: string, max: nat): nat {
    if s == [] || s == "rest" || s == "*" then max
    else
      var t := AfterSign(s);
      RunIsLongest(t);
      var v := Number(t[..DigitRun(t)]) % TWO64;
      var suffix := t[DigitRun(t)..];
      if Unit(suffix) == 512 then v else Wrap(v * Unit(suffix)) / 512
  }

  method ParseSize(s: string, max: nat) returns (sectors: nat)
    ensures sectors == SizeOf(s, max)
  {
    if s == [] || s == "rest" || s == "*" {
      return max;
    }
    var t := AfterSign(s);
    var v, end := ReadDigits(t, 0);
    assert t[0..] == t && t[0..end] == t[..end];
    if end == 0 && t == s {
      assert Number([]) == 0;
      return 0;
    }
    var suffix := t[end..];
    if suffix == "MiB" || suffix == "M" {
      return Wrap(v * 1024 * 1024) / 512;
    }
    if suffix == "GiB" || suffix == "G" {
      return Wrap(v * 1024 * 1024 * 1024) / 512;
    }
    if suffix == "KiB" || suffix == "K" {
      return Wrap(v * 1024) / 512;
    }
    return v;
  }

  /** A number with a unit means that many bytes exactly as long as the product fits in 64
      bits; beyond that the size wraps. */
  lemma {:induction false} SizeIsExact(digits: string, suffix: string, max: nat)
    requires digits != [] && AllDigits(digits)
    requires suffix in {"K", "KiB", "M", "MiB", "G", "GiB"}
    ensures var sectors :=
        if suffix in {"K", "KiB"} then 1024 / 512
        else if suffix in {"M", "MiB"} then 1024 * 1024 / 512
        else 1024 * 1024 * 1024 / 512;
      SizeOf(digits + suffix, max) == Number(digits) * sectors <==> Number(digits) * sectors * 512 < TWO64
  {
    hide SizeOf, Unit, Number, Wrap;
    SizeWithUnit(digits, suffix, max);
    UnitIs(suffix);
    var n := Number(digits);
    if suffix in {"K", "KiB"} {
      ExactIn(n, 2, SizeOf(digits + suffix, max));
    } else if suffix in {"M", "MiB"} {
      ExactIn(n, 2048, SizeOf(digits + suffix, max));
    } else {
      ExactIn(n, 2097152, SizeOf(digits + suffix, max));
    }
  }

  lemma {:induction false} ExactIn(n: nat, sectors: nat, size: nat)
    requires sectors in {2, 2048, 2097152} && size == Wrap(n % TWO64 * (sectors * 512)) / 512
    ensures size == n * sectors <==> n * sectors * 512 < TWO64
  {
    hide Wrap;
    ExactProduct(n, sectors * 512);
    assert n * (sectors * 512) == n * sectors * 512;
    assert sectors * 512 / 512 == sectors;
  }

  lemma {:induction false} UnitIs(suffix: string)
    requires suffix in {"K", "KiB", "M", "MiB", "G", "GiB"}
    ensures Unit(suffix) ==
      if suffix in {"K", "KiB"} then 1024 else if suffix in {"M", "MiB"} then 1024 * 1024 else 1024 * 1024 * 1024
  {
  }

  lemma {:induction false} SizeWithUnit(digits: string, suffix: string, max: nat)
    requires digits != [] && AllDigits(digits)
    requires suffix in {"K", "KiB", "M", "MiB", "G", "GiB"}
    ensures SizeOf(digits + suffix, max) == Wrap(Number(digits) % TWO64 * Unit(suffix)) / 512
  {
    hide Number, DigitRun, Wrap;
    ReadsNumber(digits, suffix);
    assert digits + suffix != "rest" && digits + suffix != "*" by {
      assert (digits + suffix)[0] == digits[0];
    }
  }

  /** A number without a unit, or with any other text behind it, means sectors, and those exactly
      as long as the number fits in 64 bits. */
  lemma {:induction false} SectorsAreExact(digits: string, suffix: string, max: nat)
    requires digits != [] && AllDigits(digits)
    requires suffix !in {"K", "KiB", "M", "MiB", "G", "GiB"} && (suffix != [] ==> !IsDigit(suffix[0]))
    ensures SizeOf(digits + suffix, max) == Number(digits) <==> Number(digits) < TWO64
  {
    ReadsNumber(digits, suffix);
    assert digits + suffix != "rest" && digits + suffix != "*" by {
      assert (digits + suffix)[0] == digits[0];
    }
  }

  /** The digits are read up to the suffix. */
  lemma {:induction false} ReadsNumber(digits: string, suffix: string)
    requires digits != [] && AllDigits(digits) && (suffix != [] ==> !IsDigit(suffix[0]))
    ensures var s := digits + suffix;
      AfterSign(s) == s && DigitRun(s) == |digits| && s[..|digits|] == digits && s[|digits|..] == suffix
  {
    var s := digits + suffix;
    assert s[0] == digits[0] && IsDigit(s[0]);
    assert s[..|digits|] == digits && s[|digits|..] == suffix;
    assert suffix != [] ==> s[|digits|] == suffix[0];
    RunUnique(s, |digits|);
  }

  lemma {:induction false} ExactProduct(v: nat, u: nat)
    requires u == 0x400 || u == 0x10_0000 || u == 0x4000_0000
    ensures Wrap(v % TWO64 * u) / 512 == v * (u / 512) <==> v * u < TWO64
  {
    var k := u / 512;
    assert u == 512 * k;
    assert v * u == 512 * (v * k);
    if v * u < TWO64 {
      assert v <= v * u;
      assert v % TWO64 == v && Wrap(v * u) == v * u;
      assert 512 * (v * k) / 512 == v * k;
    } else {
      assert Wrap(v % TWO64 * u) < TWO64;
      assert v * k >= TWO64 / 512;
    }
  }

  // ----- the editor -----

  /** One line of input for each prompt of a command; None is the end of the input. */
  datatype Command =
    | New(size: Option<string>, kind: Option<string>, name: Option<string>)
    | Delete(slot: Option<int>)
    | SwitchToGpt
    | SwitchToMbr

  /** A place for a new partition: the first free slot, in a free range the label allows. */
  ghost predicate Fits(parts: seq<Part>, total: nat, gpt: bool, slot: nat, p: Part) {
    && slot < |parts| && !parts[slot].used && (forall i :: 0 <= i < slot ==> parts[i].used)
    && p.used && IsFreeStart(parts, p.first)
    && p.first <= p.last <= Wrap(LastUsable(total, gpt))
    && FreeRange(parts, p.first, p.last)
  }

  /** The answers to the prompts after the size are good enough to add a partition. */
  predicate Described(gpt: bool, kind: Option<string>, name: Option<string>, mbrType: string -> Option<int>) {
    kind.Some? && if gpt then name.Some? else kind.value == [] || mbrType(kind.value).Some?
  }

  function Min(a: nat, b: nat): nat {
    if a < b then a else b
  }

  lemma {:induction false} AddKeepsTable(parts: seq<Part>, total: nat, gpt: bool, slot: nat, p: Part)
    requires Disjoint(parts) && InBounds(parts, LastUsable(total, gpt)) && Fits(parts, total, gpt, slot, p)
    requires total < TWO64
    ensures Disjoint(parts[slot := p])
    ensures InBounds(parts[slot := p], LastUsable(total, gpt)) <==> total >= Reserved(gpt)
  {
    if total < Reserved(gpt) {
      assert parts[slot := p][slot] == p;
    }
  }

  lemma {:induction false} EndWithinDisk(parts: seq<Part>, total: nat, gpt: bool, start: nat, end: nat)
    requires IsFreeEnd(parts, total, gpt, start, end)
    ensures end <= Wrap(LastUsable(total, gpt))
  {
  }

  lemma {:induction false} RemoveKeepsTable(parts: seq<Part>, limit: int, slot: nat, p: Part)
    requires Disjoint(parts) && InBounds(parts, limit) && slot < |parts| && !p.used
    ensures Disjoint(parts[slot := p]) && InBounds(parts[slot := p], limit)
  {
  }

  class Context {
    const total: nat
    var gpt: bool
    var nparts: nat
    var parts: array<Part>
    var dirty: bool

    constructor (total: nat)
      ensures this.total == total && !gpt && nparts == MAX_MBR_PARTS && !dirty
      ensures fresh(parts) && parts.Length == MAX_GPT_PARTS && forall i :: 0 <= i < parts.Length ==> parts[i] == EMPTY
    {
      this.total, gpt, nparts, dirty := total, false, MAX_MBR_PARTS, false;
      parts := new Part[MAX_GPT_PARTS](_ => EMPTY);
    }

    /** The slots in use by the label. */
    ghost function Table(): seq<Part>
      requires nparts <= parts.Length
      reads this, parts
    {
      parts[..nparts]
    }

    /** Partitions do not overlap and end at or below the last usable sector. */
    ghost predicate Valid()
      reads this, parts
    {
      && parts.Length == MAX_GPT_PARTS && nparts <= MAX_GPT_PARTS
      && total + ALIGN_LBA < TWO64
      && Disjoint(Table()) && InBounds(Table(), LastUsable(total, gpt))
    }

    /** The first slot not in use; nparts if there is none. */
    method FirstSlot() returns (slot: nat)
      requires nparts <= parts.Length
      ensures slot <= nparts && (slot < nparts ==> !parts[slot].used)
      ensures forall i :: 0 <= i < slot ==> parts[i].used
    {
      slot := 0;
      while slot < nparts && parts[slot].used
        invariant 0 <= slot <= nparts
        invariant forall i :: 0 <= i < slot ==> parts[i].used
      {
        slot := slot + 1;
      }
    }

    /**
     Add a partition: first free slot, first free place, as much as asked for and free.
     On a disk too small for its label the end wraps and the partition is out of bounds.
     */
    method CmdNew(
        size: Option<string>, kind: Option<string>, name: Option<string>, mbrType: string -> Option<int>,
        gptType: string -> int)
      returns (slot: nat, added: bool, ghost start: nat, ghost end: nat)
      requires Valid()
      modifies this, parts
      ensures gpt == old(gpt) && nparts == old(nparts) && parts == old(parts) && parts.Length == MAX_GPT_PARTS
      ensures slot < nparts ==> IsFreeStart(old(Table()), start) && IsFreeEnd(old(Table()), total, gpt, start, end)
      ensures added <==>
        && slot < nparts && start < end && size.Some? && SizeOf(size.value, end - start + 1) > 0
        && Described(gpt, kind, name, mbrType)
      ensures !added ==>
        && Valid() && dirty == old(dirty)
        && forall i :: 0 <= i < nparts && Table()[i].used ==> Table()[i] == old(Table())[i]
      ensures added ==>
        && dirty && Fits(old(Table()), total, gpt, slot, Table()[slot])
        && Table() == old(Table())[slot := Table()[slot]]
      ensures added ==>
        && Table()[slot].first == start
        && Table()[slot].last - start + 1 == Min(SizeOf(size.value, end - start + 1), end - start + 1)
      ensures added && gpt ==> Table()[slot].kind == gptType(kind.value) && Table()[slot].name == name.value
      ensures added && !gpt ==>
        Table()[slot].bootable == (slot == 0)
        && Table()[slot].kind == (if kind.value == [] then 0x83 else mbrType(kind.value).value)
      ensures added ==> (Valid() <==> total >= Reserved(gpt))
    {
      hide IsFreeStart, IsFreeEnd, FreeRange, Disjoint, InBounds, SizeOf, LastUsable;
      added, start, end := false, 0, 0;
      slot := FirstSlot();
      if slot == nparts {
        return;
      }
      var table := parts[..nparts];
      var first := FindFreeStart(table, total, gpt);
      var endMax := FindFreeEnd(table, total, gpt, first);
      start, end := first, endMax;
      if first >= endMax || size.None? {
        return;
      }
      var want := ParseSize(size.value, endMax - first + 1);
      if want == 0 {
        return;
      }
      if want > endMax - first + 1 {
        want := endMax - first + 1;
      }
      if kind.None? {
        return;
      }
      var p := Part(true, false, 0, first, first + want - 1, "");
      FreeUpToEnd(table, total, gpt, first, endMax, p.last);
      EndWithinDisk(table, total, gpt, first, endMax);
      if gpt {
        var guid := gptType(kind.value);
        RemoveKeepsTable(table, LastUsable(total, gpt), slot, parts[slot].(kind := guid));
        parts[slot] := parts[slot].(kind := guid);
        assert parts[..nparts] == table[slot := table[slot].(kind := guid)];
        if name.None? {
          return;
        }
        p := p.(kind := guid, name := name.value);
      } else {
        var t := if kind.value == [] then Some(0x83) else mbrType(kind.value);
        if t.None? {
          return;
        }
        p := p.(kind := t.value, bootable := slot == 0);
      }
      AddKeepsTable(table, total, gpt, slot, p);
      parts[slot] := p;
      dirty := true;
      added := true;
      assert parts[..nparts] == table[slot := p];
    }

    /** Clear a slot given by its number from 1. */
    method CmdDelete(number: Option<int>)
      requires Valid()
      modifies this, parts
      ensures Valid() && gpt == old(gpt) && nparts == old(nparts) && parts == old(parts)
      ensures Table() == if number.Some? && 0 < number.value <= nparts && old(Table())[number.value - 1].used
                         then old(Table())[number.value - 1 := EMPTY] else old(Table())
    {
      if number.None? {
        return;
      }
      var idx := number.value - 1;
      if idx < 0 || idx >= nparts {
        return;
      }
      if !parts[idx].used {
        return;
      }
      RemoveKeepsTable(parts[..nparts], LastUsable(total, gpt), idx, EMPTY);
      ghost var table := parts[..nparts];
      parts[idx] := EMPTY;
      dirty := true;
      assert parts[..nparts] == table[idx := EMPTY];
    }

    /** Start over with an empty table of the other kind. */
    method CmdSwitch(toGpt: bool)
      requires Valid()
      modifies this, parts
      ensures Valid() && gpt == toGpt && dirty && parts == old(parts)
      ensures Table() == seq(if toGpt then MAX_GPT_PARTS else MAX_MBR_PARTS, _ => EMPTY)
    {
      forall i | 0 <= i < parts.Length {
        parts[i] := EMPTY;
      }
      nparts := if toGpt then MAX_GPT_PARTS else MAX_MBR_PARTS;
      gpt := toGpt;
      dirty := true;
    }

    /** Any session of commands keeps the table good, on a disk large enough for both labels. */
    method Session(commands: seq<Command>, mbrType: string -> Option<int>, gptType: string -> int)
      requires Valid() && total >= Reserved(true)
      modifies this, parts
      ensures Valid()
    {
      for k := 0 to |commands|
        invariant Valid() && parts == old(parts)
      {
        match commands[k] {
          case New(size, kind, name) =>
            var slot, added, start, end := CmdNew(size, kind, name, mbrType, gptType);
          case Delete(slot) => CmdDelete(slot);
          case SwitchToGpt => CmdSwitch(true);
          case SwitchToMbr => CmdSwitch(false);
        }
      }
    }
  }
}
