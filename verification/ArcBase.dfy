/** What arc's formats share: bytes, and what a reader hands on. */
module ArcBase {

  import Bits

  type Byte = Bits.Byte
  type Bytes = seq<Byte>

  const TWO32: nat := 0x1_0000_0000

  /** What a reader hands on: a file or a directory. */
  datatype Item = File(name: Bytes, mode: nat, data: Bytes) | Directory(name: Bytes)

  function CString(s: Bytes): Bytes {
    if s == [] || s[0] == 0 then [] else [s[0]] + CString(s[1..])
  }

  lemma {:induction false} HandOver(items: seq<Item>, now: seq<Item>, rest: seq<Item>, whole: seq<Item>)
    requires items + (now + rest) == whole
    ensures (items + now) + rest == whole
  {
    assert (items + now) + rest == items + (now + rest);
  }

  lemma {:induction false} SubSlice(t: Bytes, at: nat, n: nat, i: nat, j: nat)
    requires at + n <= |t| && i <= j <= n
    ensures t[at + i..at + j] == t[at..at + n][i..j]
  {
    var a, b := t[at + i..at + j], t[at..at + n][i..j];
    assert |a| == |b| && forall k :: 0 <= k < |a| ==> a[k] == b[k];
  }
}
