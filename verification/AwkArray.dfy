/**
 awk's associative arrays: 64 buckets of linked entries, edited through pointers.  Every
 operation is proved to act as the corresponding operation on a finite map, and `for
 (k in a)` to visit exactly the keys present when the loop begins.
 */
module AwkArray {

  const BUCKETS: nat := 64

  /** The hash of the source: FNV-1a on 32 bits. */
  function HashFrom(h: bv32, key: string): bv32
    decreases |key|
  {
    if key == [] then h
    else HashFrom((h ^ ((key[0] as int % 256) as bv32)) * 16777619, key[1..])
  }

  function Bucket(key: string): (i: nat)
    ensures i < BUCKETS
  {
    (HashFrom(2166136261, key) as int) % BUCKETS
  }

  // ----- one bucket as a list of pairs -----

  type Pairs<V> = seq<(string, V)>

  /** All pairs belong to bucket i, no key occurs twice, and they are the map's pairs there. */
  ghost predicate Bucketed<V>(ps: Pairs<V>, i: nat, contents: map<string, V>) {
    && (forall j :: 0 <= j < |ps| ==> Bucket(ps[j].0) == i && ps[j].0 in contents && contents[ps[j].0] == ps[j].1)
    && (forall j, k :: 0 <= j < k < |ps| ==> ps[j].0 != ps[k].0)
    && (forall key :: key in contents && Bucket(key) == i ==> HasKey(ps, key))
  }

  ghost predicate HasKey<V>(ps: Pairs<V>, key: string) {
    exists j :: 0 <= j < |ps| && ps[j].0 == key
  }

  lemma {:induction false} PrependBucket<V>(key: string, v: V, ps: Pairs<V>, i: nat, contents: map<string, V>)
    requires Bucketed(ps, i, contents) && Bucket(key) == i && key !in contents
    ensures Bucketed([(key, v)] + ps, i, contents[key := v])
  {
    hide Bucket;
    var d := [(key, v)] + ps;
    assert d[0] == (key, v);
    assert forall j :: 0 < j < |d| ==> d[j] == ps[j - 1];
    forall k | k in contents && Bucket(k) == i
      ensures HasKey(d, k)
    {
      var j :| 0 <= j < |ps| && ps[j].0 == k;
      assert d[j + 1].0 == k;
    }
  }

  lemma {:induction false} StoreBucket<V>(ps: Pairs<V>, i: nat, contents: map<string, V>, j: nat, v: V)
    requires Bucketed(ps, i, contents) && j < |ps|
    ensures Bucketed(ps[j := (ps[j].0, v)], i, contents[ps[j].0 := v])
  {
    hide Bucket;
    var d := ps[j := (ps[j].0, v)];
    assert forall k :: 0 <= k < |ps| ==> d[k].0 == ps[k].0;
    forall k | k in contents && Bucket(k) == i
      ensures HasKey(d, k)
    {
      var x :| 0 <= x < |ps| && ps[x].0 == k;
      assert d[x].0 == k;
    }
  }

  lemma {:induction false} RemoveBucket<V>(ps: Pairs<V>, i: nat, contents: map<string, V>, j: nat)
    requires Bucketed(ps, i, contents) && j < |ps|
    ensures Bucketed(ps[..j] + ps[j + 1..], i, contents - {ps[j].0})
  {
    hide Bucket;
    var d := ps[..j] + ps[j + 1..];
    assert forall k :: 0 <= k < |d| ==> d[k] == ps[if k < j then k else k + 1];
    forall k | k in contents && k != ps[j].0 && Bucket(k) == i
      ensures HasKey(d, k)
    {
      var x :| 0 <= x < |ps| && ps[x].0 == k;
      assert d[if x < j then x else x - 1].0 == k;
    }
  }

  lemma {:induction false} OtherBucket<V>(ps: Pairs<V>, i: nat, contents: map<string, V>, key: string, v: V)
    requires Bucketed(ps, i, contents) && Bucket(key) != i
    ensures Bucketed(ps, i, contents[key := v]) && Bucketed(ps, i, contents - {key})
  {
    hide Bucket, HasKey;
  }

  lemma {:induction false} NotInBucket<V>(ps: Pairs<V>, i: nat, contents: map<string, V>, key: string)
    requires Bucketed(ps, i, contents) && Bucket(key) == i && forall j :: 0 <= j < |ps| ==> ps[j].0 != key
    ensures key !in contents
  {
  }

  lemma {:induction false} InBucket<V>(ps: Pairs<V>, i: nat, contents: map<string, V>, j: nat)
    requires Bucketed(ps, i, contents) && j < |ps|
    ensures ps[j].0 in contents && contents[ps[j].0] == ps[j].1 && Bucket(ps[j].0) == i
    ensures forall k :: 0 <= k < |ps| && k != j ==> ps[k].0 != ps[j].0
  {
  }

  // ----- one bucket as linked entries -----

  class Entry<V> {
    const key: string
    var val: V
    var next: Entry?<V>

    constructor (key: string, val: V, next: Entry?<V>)
      ensures this.key == key && this.val == val && this.next == next
    {
      this.key, this.val, this.next := key, val, next;
    }
  }

  /** The list from `head` runs through exactly the entries c. */
  ghost predicate Links<V>(head: Entry?<V>, c: seq<Entry<V>>)
    reads c
  {
    && head == At(c, 0)
    && (forall j {:trigger c[j].next} :: 0 <= j < |c| ==> c[j].next == At(c, j + 1))
    && (forall j, k :: 0 <= j < k < |c| ==> c[j] != c[k])
  }

  ghost predicate Holds<V>(c: seq<Entry<V>>, ps: Pairs<V>)
    reads c
  {
    |c| == |ps| && forall j :: 0 <= j < |c| ==> c[j].key == ps[j].0 && c[j].val == ps[j].1
  }

  ghost predicate Chain<V>(head: Entry?<V>, c: seq<Entry<V>>, ps: Pairs<V>)
    reads c
  {
    Links(head, c) && Holds(c, ps)
  }

  ghost function At<V>(c: seq<Entry<V>>, j: nat): Entry?<V> {
    if j < |c| then c[j] else null
  }

  lemma {:induction false} PrependChain<V>(e: Entry<V>, head: Entry?<V>, c: seq<Entry<V>>, ps: Pairs<V>)
    requires Chain(head, c, ps) && e.next == head && e !in c
    ensures Chain(e, [e] + c, [(e.key, e.val)] + ps)
  {
    var d := [e] + c;
    forall j | 0 <= j < |d|
      ensures d[j].next == At(d, j + 1)
    {
      if j > 0 {
        assert d[j] == c[j - 1] && c[j - 1].next == At(c, j);
      }
    }
  }

  /** Walk a chain to the entry with a key. */
  method Walk<V>(
      head: Entry?<V>, ghost c: seq<Entry<V>>, ghost ps: Pairs<V>, key: string)
    returns (prev: Entry?<V>, e: Entry?<V>, ghost j: nat)
    requires Chain(head, c, ps)
    ensures j <= |c| && e == At(c, j) && prev == (if j > 0 then c[j - 1] else null)
    ensures forall k :: 0 <= k < j ==> ps[k].0 != key
    ensures e != null ==> e.key == key == ps[j].0 && e.val == ps[j].1
  {
    prev, e, j := null, head, 0;
    while e != null && e.key != key
      invariant Chain(head, c, ps)
      invariant 0 <= j <= |c| && e == At(c, j) && prev == (if j > 0 then c[j - 1] else null)
      invariant forall k :: 0 <= k < j ==> ps[k].0 != key
      decreases |c| - j
    {
      prev, e, j := e, e.next, j + 1;
    }
  }

  method SetValue<V>(head: Entry?<V>, ghost c: seq<Entry<V>>, ghost ps: Pairs<V>, ghost j: nat, e: Entry<V>, v: V)
    requires Chain(head, c, ps) && j < |c| && c[j] == e
    modifies e`val
    ensures Chain(head, c, ps[j := (ps[j].0, v)])
  {
    e.val := v;
  }

  /** Take entry j out of a chain: its predecessor, or the bucket, now points past it. */
  method Unlink<V>(
      head: Entry?<V>, ghost c: seq<Entry<V>>, ghost ps: Pairs<V>, ghost j: nat, prev: Entry?<V>, e: Entry<V>)
    returns (head': Entry?<V>)
    requires Chain(head, c, ps) && j < |c| && c[j] == e && prev == (if j > 0 then c[j - 1] else null)
    modifies c
    ensures Chain(head', c[..j] + c[j + 1..], ps[..j] + ps[j + 1..])
  {
    if prev == null {
      head' := e.next;
    } else {
      prev.next := e.next;
      head' := head;
    }
    SkipLink(head', c, j);
    SkipPair(c, ps, j);
  }

  lemma {:induction false} SkipLink<V>(head: Entry?<V>, c: seq<Entry<V>>, j: nat)
    requires j < |c| && (forall i, k :: 0 <= i < k < |c| ==> c[i] != c[k])
    requires forall k {:trigger c[k].next} :: 0 <= k < |c| && k != j - 1 ==> c[k].next == At(c, k + 1)
    requires if j > 0 then head == c[0] && c[j - 1].next == At(c, j + 1) else head == At(c, 1)
    ensures Links(head, c[..j] + c[j + 1..])
  {
    var d := c[..j] + c[j + 1..];
    assert forall k :: 0 <= k < |d| ==> d[k] == c[if k < j then k else k + 1];
    forall k | 0 <= k < |d|
      ensures d[k].next == At(d, k + 1)
    {
      var x := if k < j then k else k + 1;
      assert c[x].next == (if x == j - 1 then At(c, j + 1) else At(c, x + 1));
    }
  }

  lemma {:induction false} SkipPair<V>(c: seq<Entry<V>>, ps: Pairs<V>, j: nat)
    requires Holds(c, ps) && j < |c|
    ensures Holds(c[..j] + c[j + 1..], ps[..j] + ps[j + 1..])
  {
    var d, qs := c[..j] + c[j + 1..], ps[..j] + ps[j + 1..];
    forall k | 0 <= k < |d|
      ensures d[k].key == qs[k].0 && d[k].val == qs[k].1
    {
      var x := if k < j then k else k + 1;
      assert d[k] == c[x] && qs[k] == ps[x];
    }
  }

  // ----- the array -----

  class Arr<V> {
    var b: array<Entry?<V>>
    ghost var chain: seq<seq<Entry<V>>>
    ghost var pairs: seq<Pairs<V>>
    ghost var contents: map<string, V>

    ghost function Entries(): set<object>
      reads this
    {
      set i, j | 0 <= i < |chain| && 0 <= j < |chain[i]| :: chain[i][j] as object
    }

    /** Every bucket is a chain that holds exactly the map's pairs that hash to it. */
    ghost predicate Valid()
      reads this, b, Entries()
    {
      && b.Length == BUCKETS && |chain| == BUCKETS && |pairs| == BUCKETS
      && (forall i :: 0 <= i < BUCKETS ==> Chain(b[i], chain[i], pairs[i]))
      && (forall i :: 0 <= i < BUCKETS ==> Bucketed(pairs[i], i, contents))
    }

    constructor ()
      ensures Valid() && contents == map[] && fresh(b) && Entries() == {}
    {
      b := new Entry?<V>[BUCKETS](_ => null);
      chain := seq(BUCKETS, _ => []);
      pairs := seq(BUCKETS, _ => []);
      contents := map[];
    }

    /** An entry of one bucket is in no other. */
    lemma {:induction false} OneBucket(h: nat, j: nat, i: nat)
      requires Valid() && h < BUCKETS && j < |chain[h]| && i < BUCKETS && i != h
      ensures chain[h][j] !in chain[i]
    {
      InBucket(pairs[h], h, contents, j);
      if k :| 0 <= k < |chain[i]| && chain[i][k] == chain[h][j] {
        InBucket(pairs[i], i, contents, k);
        assert false;
      }
    }

    /** `arr_get`: find an entry, or add one with the given value when asked to. */
    method Get(key: string, create: bool, init: V) returns (e: Entry?<V>)
      requires Valid()
      modifies this, b
      ensures Valid() && b == old(b)
      ensures contents == if key in old(contents) || !create then old(contents) else old(contents)[key := init]
      ensures e == null <==> key !in contents
      ensures e != null ==> e in chain[Bucket(key)] && e.key == key && e.val == contents[key]
      ensures e != null ==> e in old(Entries()) || fresh(e)
    {
      hide Bucket, Bucketed, Chain;
      var h := Bucket(key);
      BucketRange(key);
      var prev;
      ghost var j;
      prev, e, j := Walk(b[h], chain[h], pairs[h], key);
      ChainSize(b[h], chain[h], pairs[h]);
      if e != null {
        InBucket(pairs[h], h, contents, j);
        return;
      }
      NotInBucket(pairs[h], h, contents, key);
      if !create {
        return;
      }
      var node := new Entry(key, init, b[h]);
      PrependChain(node, b[h], chain[h], pairs[h]);
      PrependBucket(key, init, pairs[h], h, contents);
      forall i | 0 <= i < BUCKETS && i != h
        ensures Bucketed(pairs[i], i, contents[key := init])
      {
        OtherBucket(pairs[i], i, contents, key, init);
      }
      b[h] := node;
      chain := chain[h := [node] + chain[h]];
      pairs := pairs[h := [(key, init)] + pairs[h]];
      contents := contents[key := init];
      e := node;
      assert e == chain[h][0];
    }

    /** `a[key] = v`: the value is written through the pointer that `arr_get` returned. */
    method Store(key: string, v: V)
      requires Valid()
      modifies this, b, Entries()
      ensures Valid() && b == old(b) && contents == old(contents)[key := v]
    {
      hide Bucket, Bucketed, Chain;
      var h := Bucket(key);
      BucketRange(key);
      var e := Get(key, true, v);
      ghost var j :| 0 <= j < |chain[h]| && chain[h][j] == e;
      ChainSize(b[h], chain[h], pairs[h]);
      ChainEntry(b[h], chain[h], pairs[h], j);
      StoreBucket(pairs[h], h, contents, j, v);
      forall i | 0 <= i < BUCKETS && i != h
        ensures Bucketed(pairs[i], i, contents[key := v]) && e !in chain[i]
      {
        OtherBucket(pairs[i], i, contents, key, v);
        OneBucket(h, j, i);
      }
      SetValue(b[h], chain[h], pairs[h], j, e, v);
      pairs := pairs[h := pairs[h][j := (key, v)]];
      contents := contents[key := v];
    }

    /** `arr_del`: unlink the entry of a key. */
    method Delete(key: string)
      requires Valid()
      modifies this, b, Entries()
      ensures Valid() && b == old(b) && contents == old(contents) - {key}
    {
      hide Bucket, Bucketed, Chain;
      var h := Bucket(key);
      BucketRange(key);
      ghost var c, ps := chain[h], pairs[h];
      var prev, e;
      ghost var j;
      prev, e, j := Walk(b[h], c, ps, key);
      ChainSize(b[h], c, ps);
      if e == null {
        NotInBucket(ps, h, contents, key);
        return;
      }
      RemoveBucket(ps, h, contents, j);
      forall i | 0 <= i < BUCKETS && i != h
        ensures Bucketed(pairs[i], i, contents - {key}) && forall k :: 0 <= k < |c| ==> c[k] !in chain[i]
      {
        OtherBucket(pairs[i], i, contents, key, e.val);
        forall k | 0 <= k < |c| ensures c[k] !in chain[i] {
          OneBucket(h, k, i);
        }
      }
      b[h] := Unlink(b[h], c, ps, j, prev, e);
      chain := chain[h := c[..j] + c[j + 1..]];
      pairs := pairs[h := ps[..j] + ps[j + 1..]];
      contents := contents - {key};
    }

    /** The snapshot a `for (k in a)` loop takes: every key, bucket by bucket. */
    method Keys() returns (keys: seq<string>)
      requires Valid()
      ensures keys == AllKeys(pairs, BUCKETS)
      ensures Distinct(keys) && forall k :: k in keys <==> k in contents
    {
      hide Bucketed, Links, Holds;
      keys := [];
      for i := 0 to BUCKETS
        invariant keys == AllKeys(pairs, i)
      {
        var e := b[i];
        ghost var j, before := 0, keys;
        assert Chain(b[i], chain[i], pairs[i]);
        ChainStart(b[i], chain[i], pairs[i]);
        while e != null
          invariant Chain(b[i], chain[i], pairs[i]) && |chain[i]| == |pairs[i]|
          invariant 0 <= j <= |chain[i]| && e == At(chain[i], j)
          invariant keys == before + Firsts(pairs[i][..j])
          decreases |chain[i]| - j
        {
          ChainStep(b[i], chain[i], pairs[i], j);
          FirstsNext(pairs[i], j);
          keys := keys + [e.key];
          e := e.next;
          j := j + 1;
        }
        assert pairs[i][..j] == pairs[i];
      }
      KeysAreContents(pairs, contents);
    }

    /** `arr_clear`: empty every bucket. */
    method Clear()
      requires Valid()
      modifies this, b
      ensures Valid() && b == old(b) && contents == map[]
    {
      hide Bucketed, Chain, Bucket;
      var i := 0;
      while i < BUCKETS
        invariant 0 <= i <= BUCKETS && b == old(b) && b.Length == BUCKETS
        invariant forall k :: 0 <= k < i ==> b[k] == null
      {
        b[i] := null;
        i := i + 1;
      }
      chain := seq(BUCKETS, _ => []);
      pairs := seq(BUCKETS, _ => []);
      contents := map[];
      EmptyBucket<V>();
    }
  }

  lemma {:induction false} EmptyBucket<V>()
    ensures Chain<V>(null, [], []) && forall i :: Bucketed<V>([], i, map[])
  {
  }

  lemma {:induction false} BucketRange(key: string)
    ensures Bucket(key) < BUCKETS
  {
  }

  lemma {:induction false} ChainSize<V>(head: Entry?<V>, c: seq<Entry<V>>, ps: Pairs<V>)
    requires Chain(head, c, ps)
    ensures |c| == |ps|
  {
  }

  lemma {:induction false} ChainEntry<V>(head: Entry?<V>, c: seq<Entry<V>>, ps: Pairs<V>, j: nat)
    requires Chain(head, c, ps) && j < |c|
    ensures |c| == |ps| && c[j].key == ps[j].0 && c[j].val == ps[j].1
  {
  }

  lemma {:induction false} ChainStart<V>(head: Entry?<V>, c: seq<Entry<V>>, ps: Pairs<V>)
    requires Chain(head, c, ps)
    ensures |c| == |ps| && head == At(c, 0) && Firsts(ps[..0]) == []
  {
  }

  lemma {:induction false} ChainStep<V>(head: Entry?<V>, c: seq<Entry<V>>, ps: Pairs<V>, j: nat)
    requires Chain(head, c, ps) && j < |c|
    ensures |c| == |ps| && c[j].key == ps[j].0 && c[j].next == At(c, j + 1)
  {
  }

  // ----- the loop over the keys -----

  ghost function Firsts<V>(ps: Pairs<V>): seq<string> {
    seq(|ps|, j requires 0 <= j < |ps| => ps[j].0)
  }

  lemma {:induction false} FirstsNext<V>(ps: Pairs<V>, j: nat)
    requires j < |ps|
    ensures Firsts(ps[..j + 1]) == Firsts(ps[..j]) + [ps[j].0]
  {
  }

  /** The keys of the first n buckets. */
  ghost function AllKeys<V>(pairs: seq<Pairs<V>>, n: nat): seq<string>
    requires n <= |pairs|
  {
    if n == 0 then [] else AllKeys(pairs, n - 1) + Firsts(pairs[n - 1])
  }

  ghost predicate Distinct(keys: seq<string>) {
    forall i, j :: 0 <= i < j < |keys| ==> keys[i] != keys[j]
  }

  /** Keys of the first n buckets: exactly the map's keys that hash below n, each once. */
  lemma {:induction false} KeysOfBuckets<V>(pairs: seq<Pairs<V>>, contents: map<string, V>, n: nat)
    requires n <= |pairs| == BUCKETS && forall i :: 0 <= i < BUCKETS ==> Bucketed(pairs[i], i, contents)
    ensures Distinct(AllKeys(pairs, n))
    ensures forall k :: k in AllKeys(pairs, n) <==> k in contents && Bucket(k) < n
    decreases n
  {
    if n > 0 {
      hide Bucket;
      KeysOfBuckets(pairs, contents, n - 1);
      FirstsOfBucket(pairs[n - 1], n - 1, contents);
      var a, f := AllKeys(pairs, n - 1), Firsts(pairs[n - 1]);
      forall i, j | 0 <= i < |a| && 0 <= j < |f|
        ensures a[i] != f[j]
      {
        assert a[i] in a && f[j] in f;
      }
      forall k
        ensures k in a + f <==> k in contents && Bucket(k) < n
      {
        assert k in a + f <==> k in a || k in f;
      }
    }
  }

  lemma {:induction false} FirstsOfBucket<V>(ps: Pairs<V>, i: nat, contents: map<string, V>)
    requires Bucketed(ps, i, contents)
    ensures Distinct(Firsts(ps)) && forall k :: k in Firsts(ps) <==> k in contents && Bucket(k) == i
  {
    hide Bucket;
    forall k | k in contents && Bucket(k) == i
      ensures k in Firsts(ps)
    {
      var j :| 0 <= j < |ps| && ps[j].0 == k;
      assert Firsts(ps)[j] == k;
    }
  }

  lemma {:induction false} KeysAreContents<V>(pairs: seq<Pairs<V>>, contents: map<string, V>)
    requires |pairs| == BUCKETS && forall i :: 0 <= i < BUCKETS ==> Bucketed(pairs[i], i, contents)
    ensures Distinct(AllKeys(pairs, BUCKETS))
    ensures forall k :: k in AllKeys(pairs, BUCKETS) <==> k in contents
  {
    KeysOfBuckets(pairs, contents, BUCKETS);
    forall k ensures Bucket(k) < BUCKETS {
      BucketRange(k);
    }
  }

  /** What a statement leaves in the flow flag. */
  datatype Flow = NoFlow | Break | Continue | Next | NextFile | Exit | Return

  /** The body run on one key after the other until a flow flag ends the loop: `break` ends
      it and is done, `continue` goes on, everything else ends it and stays set. */
  function ForEachKey<W>(body: (string, W) -> (W, Flow), keys: seq<string>, w: W): (r: (W, seq<string>, Flow))
    ensures r.1 <= keys
    ensures r.2 != Break && r.2 != Continue
    decreases |keys|
  {
    if keys == [] then (w, [], NoFlow)
    else
      var (w1, flow) := body(keys[0], w);
      if flow == NoFlow || flow == Continue then
        var (w2, visited, f) := ForEachKey(body, keys[1..], w1);
        assert [keys[0]] + keys[1..] == keys;
        (w2, [keys[0]] + visited, f)
      else (w1, [keys[0]], if flow == Break then NoFlow else flow)
  }

  predicate EndsLoop(flow: Flow) {
    flow != NoFlow && flow != Continue
  }

  /** The world in which the body meets key j, if it got through the keys before. */
  function WorldAt<W>(body: (string, W) -> (W, Flow), keys: seq<string>, w: W, j: nat): W
    requires j <= |keys|
    decreases j
  {
    if j == 0 then w else WorldAt(body, keys[1..], body(keys[0], w).0, j - 1)
  }

  /** The flag the body leaves there. */
  function FlagAt<W>(body: (string, W) -> (W, Flow), keys: seq<string>, w: W, j: nat): Flow
    requires j < |keys|
  {
    body(keys[j], WorldAt(body, keys, w, j)).1
  }

  /** No flag at a key before j ends the loop. */
  ghost predicate ReachesKey<W>(body: (string, W) -> (W, Flow), keys: seq<string>, w: W, j: nat)
    requires j <= |keys|
  {
    forall i :: 0 <= i < j ==> !EndsLoop(FlagAt(body, keys, w, i))
  }

  /** A key is visited exactly when no flag before it ended the loop; the world is the one after
      the last key visited, and of the flag there all but `break` and `continue` is left. */
  lemma {:induction false} LoopVisits<W>(body: (string, W) -> (W, Flow), keys: seq<string>, w: W)
    ensures var (w', visited, flow) := ForEachKey(body, keys, w); var n := |visited|;
      && visited <= keys
      && (forall j :: 0 <= j < |keys| ==> (j < n <==> ReachesKey(body, keys, w, j)))
      && w' == WorldAt(body, keys, w, n)
      && flow == if n == 0 || FlagAt(body, keys, w, n - 1) in {Break, Continue} then NoFlow
                 else FlagAt(body, keys, w, n - 1)
    decreases |keys|
  {
    if keys != [] {
      var (w1, flow) := body(keys[0], w);
      var n := |ForEachKey(body, keys, w).1|;
      assert FlagAt(body, keys, w, 0) == flow;
      LoopVisits(body, keys[1..], w1);
      forall j | 0 <= j < |keys|
        ensures j < n <==> ReachesKey(body, keys, w, j)
      {
        if j > 0 {
          ReachesLater(body, keys, w, j);
        }
      }
      assert n >= 2 ==> FlagAt(body, keys, w, n - 1) == FlagAt(body, keys[1..], w1, n - 2);
    }
  }

  lemma {:induction false} ReachesLater<W>(body: (string, W) -> (W, Flow), keys: seq<string>, w: W, j: nat)
    requires 0 < j < |keys|
    ensures ReachesKey(body, keys, w, j)
       <==> !EndsLoop(body(keys[0], w).1) && ReachesKey(body, keys[1..], body(keys[0], w).0, j - 1)
  {
    var w1 := body(keys[0], w).0;
    assert forall i :: 0 < i < j ==> FlagAt(body, keys, w, i) == FlagAt(body, keys[1..], w1, i - 1);
    assert FlagAt(body, keys, w, 0) == body(keys[0], w).1;
    if ReachesKey(body, keys, w, j) {
      forall i | 0 <= i < j - 1
        ensures !EndsLoop(FlagAt(body, keys[1..], w1, i))
      {
        assert FlagAt(body, keys, w, i + 1) == FlagAt(body, keys[1..], w1, i);
      }
    }
  }

  /** The loop over a snapshot of keys. */
  method RunLoop<W>(body: (string, W) -> (W, Flow), keys: seq<string>, w: W)
    returns (w': W, visited: seq<string>, flow: Flow)
    ensures (w', visited, flow) == ForEachKey(body, keys, w)
  {
    w', visited, flow := w, [], NoFlow;
    assert keys[0..] == keys;
    for i := 0 to |keys|
      invariant flow == NoFlow
      invariant ForEachKey(body, keys, w).0 == ForEachKey(body, keys[i..], w').0
      invariant ForEachKey(body, keys, w).1 == visited + ForEachKey(body, keys[i..], w').1
      invariant ForEachKey(body, keys, w).2 == ForEachKey(body, keys[i..], w').2
    {
      assert keys[i..][1..] == keys[i + 1..];
      var (w1, f) := body(keys[i], w');
      ghost var before := visited;
      visited := visited + [keys[i]];
      w' := w1;
      if f == Break {
        return;
      }
      if f != NoFlow && f != Continue {
        flow := f;
        return;
      }
      ghost var rest := ForEachKey(body, keys[i + 1..], w').1;
      assert before + ([keys[i]] + rest) == visited + rest;
    }
    assert keys[|keys|..] == [] && visited + [] == visited;
  }

  lemma {:induction false} PrefixDistinct(keys: seq<string>, visited: seq<string>)
    requires Distinct(keys) && visited <= keys
    ensures Distinct(visited) && forall k :: k in visited ==> k in keys
  {
  }

  /** `for (k in a)` runs over the keys present at its start, each once, whatever the body does to
      the array.  A key is visited exactly when no flag before it ended the loop. */
  method ForIn<V, W>(a: Arr<V>, body: (string, W) -> (W, Flow), w: W)
    returns (w': W, visited: seq<string>, flow: Flow, ghost keys: seq<string>)
    requires a.Valid()
    ensures keys == AllKeys(a.pairs, BUCKETS) && Distinct(keys) && (forall k :: k in keys <==> k in a.contents)
    ensures visited <= keys && Distinct(visited)
    ensures forall j :: 0 <= j < |keys| ==> (j < |visited| <==> ReachesKey(body, keys, w, j))
    ensures w' == WorldAt(body, keys, w, |visited|)
    ensures (w', visited, flow) == ForEachKey(body, keys, w)
  {
    hide Bucketed, Links, Holds, ForEachKey, AllKeys, WorldAt, ReachesKey;
    var snapshot := a.Keys();
    keys := snapshot;
    w', visited, flow := RunLoop(body, snapshot, w);
    LoopVisits(body, snapshot, w);
    PrefixDistinct(snapshot, visited);
  }
}
