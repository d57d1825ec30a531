/** Which entries a walk evaluates, and in which order. */
module FindOrder {

  import opened Find
  import opened FindQuit

  // ----- the listing of a tree, given which entries were pruned -----

  function Self(o: Options, a: Address, depth: nat, last: bool): seq<Address> {
    if o.depthFirst == last && InRange(o, depth) then [a] else []
  }

  predicate Enters(o: Options, t: Tree, a: Address, depth: nat, device: nat, pruned: seq<Address>) {
    Descends(o, t, depth, device) && t.opens && a !in pruned
  }

  /** Parents first, or last in depth-first mode. */
  function Listing(o: Options, t: Tree, a: Address, depth: nat, device: nat, pruned: seq<Address>): seq<Address>
    decreases t, |t.kids| + 1
  {
    if !t.found then []
    else
      Self(o, a, depth, false)
      + (if Enters(o, t, a, depth, device, pruned) then KidsListing(o, t, 0, a, depth, device, pruned) else [])
      + Self(o, a, depth, true)
  }

  function KidsListing(
      o: Options, t: Tree, k: nat, a: Address, depth: nat, device: nat, pruned: seq<Address>): seq<Address>
    requires k <= |t.kids|
    decreases t, |t.kids| - k
  {
    if k == |t.kids| then []
    else
      Listing(o, t.kids[k], a + [k], depth + 1, device, pruned)
      + KidsListing(o, t, k + 1, a, depth, device, pruned)
  }

  function WholeListing(o: Options, starts: seq<Tree>, k: nat, pruned: seq<Address>): seq<Address>
    requires k <= |starts|
    decreases |starts| - k
  {
    if k == |starts| then []
    else
      Listing(o, starts[k], [k], 0, starts[k].device, pruned)
      + WholeListing(o, starts, k + 1, pruned)
  }

  // ----- the walk evaluates the listing -----

  /** b is a or below it. */
  predicate Under(a: Address, b: Address) {
    a <= b
  }

  /** Two prune lists agree at and below a. */
  ghost predicate Agree(a: Address, p: seq<Address>, q: seq<Address>) {
    forall b :: Under(a, b) ==> (b in p <==> b in q)
  }

  lemma {:induction false} AgreeBelow(a: Address, k: nat, p: seq<Address>, q: seq<Address>)
    requires Agree(a, p, q)
    ensures Agree(a + [k], p, q)
  {
    forall b | Under(a + [k], b)
      ensures Under(a, b)
    {
      assert (a + [k])[..|a|] == a;
    }
  }

  /** The listing below a depends only on what was pruned there. */
  lemma {:induction false} ListingFrame(
      o: Options, t: Tree, a: Address, depth: nat, device: nat, p: seq<Address>, q: seq<Address>)
    requires Agree(a, p, q)
    ensures Listing(o, t, a, depth, device, p) == Listing(o, t, a, depth, device, q)
    decreases t, |t.kids| + 1
  {
    hide Agree;
    AgreeHere(a, p, q);
    KidsFrame(o, t, 0, a, depth, device, p, q);
  }

  lemma {:induction false} AgreeHere(a: Address, p: seq<Address>, q: seq<Address>)
    requires Agree(a, p, q)
    ensures a in p <==> a in q
  {
    assert Under(a, a);
  }

  lemma {:induction false} KidsFrame(
      o: Options, t: Tree, k: nat, a: Address, depth: nat, device: nat, p: seq<Address>, q: seq<Address>)
    requires k <= |t.kids| && Agree(a, p, q)
    ensures KidsListing(o, t, k, a, depth, device, p) == KidsListing(o, t, k, a, depth, device, q)
    decreases t, |t.kids| - k
  {
    hide Agree, Listing;
    if k < |t.kids| {
      AgreeBelow(a, k, p, q);
      ListingFrame(o, t.kids[k], a + [k], depth + 1, device, p, q);
      KidsFrame(o, t, k + 1, a, depth, device, p, q);
    }
  }

  /** q is p with entries that all satisfy `Under(a, _)`. */
  ghost predicate GrowsUnder(a: Address, p: seq<Address>, q: seq<Address>) {
    p <= q && forall i :: |p| <= i < |q| ==> Under(a, q[i])
  }

  /** b is at or below a child of a, the k-th or a later one. */
  predicate UnderFrom(a: Address, k: nat, b: Address) {
    |a| < |b| && a <= b && k <= b[|a|]
  }

  ghost predicate GrowsFrom(a: Address, k: nat, p: seq<Address>, q: seq<Address>) {
    p <= q && forall i :: |p| <= i < |q| ==> UnderFrom(a, k, q[i])
  }

  ghost predicate Clean(a: Address, p: seq<Address>) {
    forall i :: 0 <= i < |p| ==> !Under(a, p[i])
  }

  ghost predicate CleanFrom(a: Address, k: nat, p: seq<Address>) {
    forall i :: 0 <= i < |p| ==> !UnderFrom(a, k, p[i])
  }

  lemma {:induction false} UnderKid(a: Address, k: nat, b: Address)
    ensures Under(a + [k], b) ==> UnderFrom(a, k, b) && b[|a|] == k
  {
    if Under(a + [k], b) {
      assert b[..|a|] == (a + [k])[..|a|] == a;
    }
  }

  lemma {:induction false} CleanKid(a: Address, k: nat, p: seq<Address>)
    requires CleanFrom(a, k, p)
    ensures Clean(a + [k], p)
  {
    forall i | 0 <= i < |p|
      ensures !Under(a + [k], p[i])
    {
      UnderKid(a, k, p[i]);
    }
  }

  lemma {:induction false} CleanNext(a: Address, k: nat, p: seq<Address>, q: seq<Address>)
    requires CleanFrom(a, k, p) && GrowsUnder(a + [k], p, q)
    ensures CleanFrom(a, k + 1, q)
  {
    forall i | 0 <= i < |q|
      ensures !UnderFrom(a, k + 1, q[i])
    {
      UnderKid(a, k, q[i]);
      if i < |p| {
        assert q[i] == p[i];
      }
    }
  }

  lemma {:induction false} GrowsNext(a: Address, k: nat, p: seq<Address>, q: seq<Address>, r: seq<Address>)
    requires GrowsUnder(a + [k], p, q) && GrowsFrom(a, k + 1, q, r)
    ensures GrowsFrom(a, k, p, r)
    ensures Agree(a + [k], q, r)
  {
    forall i | |p| <= i < |r|
      ensures UnderFrom(a, k, r[i])
    {
      if i < |q| {
        assert r[i] == q[i];
        UnderKid(a, k, r[i]);
      }
    }
    forall b | Under(a + [k], b)
      ensures b in q <==> b in r
    {
      UnderKid(a, k, b);
      if b in r {
        var i :| 0 <= i < |r| && r[i] == b;
        assert i < |q|;
        assert r[i] == q[i];
      }
    }
  }

  /** The evaluation of a adds a alone. */
  lemma {:induction false} EntryLists(o: Options, a: Address, path: string, s: State)
    ensures var x := Entry(o, false, a, path, s);
      && x.state.seen == s.seen + [a]
      && x.state.pruned == s.pruned + (if x.prune && !o.depthFirst then [a] else [])
      && (!s.quit ==> !x.state.quit)
  {
    hide Evaluate;
    EvaluateExtends(o, false, o.expr, a, path, false, s.(seen := s.seen + [a]));
  }

  /** How a's own evaluation and those below it show in the prune list. */
  lemma {:induction false} OwnPrune(a: Address, p: seq<Address>, own: bool, r: seq<Address>)
    requires Clean(a, p)
    requires var q := p + if own then [a] else []; GrowsFrom(a, 0, q, r)
    ensures a in r <==> own
    ensures GrowsUnder(a, p, r)
  {
    var q := p + if own then [a] else [];
    if own {
      assert r[|p|] == q[|p|] == a;
    } else if a in r {
      var i :| 0 <= i < |r| && r[i] == a;
      if i < |p| {
        assert r[i] == p[i] && Under(a, a);
      }
      assert false;
    }
    forall i | |p| <= i < |r|
      ensures Under(a, r[i])
    {
      if i < |q| {
        assert r[i] == q[i] == a;
      }
    }
  }

  lemma {:induction false} CleanOwn(a: Address, p: seq<Address>, own: bool)
    requires Clean(a, p)
    ensures var q := p + if own then [a] else [];
      CleanFrom(a, 0, q) && GrowsFrom(a, 0, q, q)
  {
    var q := p + if own then [a] else [];
    forall i | 0 <= i < |q|
      ensures !UnderFrom(a, 0, q[i])
    {
      if i < |p| {
        assert q[i] == p[i] && !Under(a, p[i]);
      }
    }
  }

  /** Before the children: a itself, unless that comes last. */
  lemma {:induction false} FirstLists(o: Options, a: Address, path: string, depth: nat, s: State)
    requires !s.quit
    ensures
      var x := if !o.depthFirst && InRange(o, depth) then Entry(o, false, a, path, s) else Outcome(false, false, s);
      && x.state.seen == s.seen + Self(o, a, depth, false)
      && x.state.pruned == s.pruned + (if x.prune then [a] else [])
      && !x.state.quit
  {
    hide Entry;
    EntryLists(o, a, path, s);
  }

  /** After them: a itself in depth-first mode, which prunes nothing. */
  lemma {:induction false} LastLists(o: Options, a: Address, path: string, depth: nat, s: State)
    requires !s.quit
    ensures var x := if o.depthFirst && InRange(o, depth) then Entry(o, false, a, path, s).state else s;
      x.seen == s.seen + Self(o, a, depth, true) && x.pruned == s.pruned && !x.quit
  {
    hide Entry;
    EntryLists(o, a, path, s);
  }

  lemma {:induction false} BelowLists(
      o: Options, t: Tree, a: Address, path: string, depth: nat, device: nat, own: seq<Address>, first: Outcome)
    requires !first.state.quit && Clean(a, own)
    requires first.state.pruned == own + if first.prune then [a] else []
    ensures var x := Below(o, false, t, a, path, depth, device, first);
      && !x.quit
      && x.seen == first.state.seen
         + (if Enters(o, t, a, depth, device, x.pruned) then KidsListing(o, t, 0, a, depth, device, x.pruned) else [])
      && GrowsUnder(a, own, x.pruned)
    decreases t, |t.kids| + 1, 0
  {
    hide Clean, CleanFrom, GrowsUnder, GrowsFrom, Descends;
    CleanOwn(a, own, first.prune);
    KidsList(o, t, 0, a, path, depth, device, first.state);
    OwnPrune(a, own, first.prune, Below(o, false, t, a, path, depth, device, first).pruned);
  }

  lemma {:induction false} VisitLists(o: Options, t: Tree, a: Address, path: string, depth: nat, device: nat, s: State)
    requires !s.quit && Clean(a, s.pruned)
    ensures var x := Visit(o, false, t, a, path, depth, device, s);
      && !x.quit
      && x.seen == s.seen + Listing(o, t, a, depth, device, x.pruned)
      && GrowsUnder(a, s.pruned, x.pruned)
    decreases t, |t.kids| + 1
  {
    hide Entry, Clean, GrowsUnder, InRange, Descends, Self, Enters, KidsListing;
    if t.found {
      var first := if !o.depthFirst && InRange(o, depth) then Entry(o, false, a, path, s) else Outcome(false, false, s);
      FirstLists(o, a, path, depth, s);
      BelowLists(o, t, a, path, depth, device, s.pruned, first);
      var below := Below(o, false, t, a, path, depth, device, first);
      LastLists(o, a, path, depth, below);
      var kids := if Enters(o, t, a, depth, device, below.pruned)
                  then KidsListing(o, t, 0, a, depth, device, below.pruned) else [];
      ThreeParts(s.seen, Self(o, a, depth, false), kids, Self(o, a, depth, true));
    } else {
      GrowsUnderNot(a, s.pruned);
    }
  }

  lemma {:induction false} ThreeParts(s: seq<Address>, a: seq<Address>, b: seq<Address>, c: seq<Address>)
    ensures s + a + b + c == s + (a + b + c)
  {
    assert s + a + b + c == s + (a + b + c);
  }

  lemma {:induction false} GrowsUnderNot(a: Address, p: seq<Address>)
    ensures GrowsUnder(a, p, p)
  {
  }

  lemma {:induction false} KidsList(
      o: Options, t: Tree, k: nat, a: Address, path: string, depth: nat, device: nat, s: State)
    requires k <= |t.kids| && !s.quit && CleanFrom(a, k, s.pruned)
    ensures var x := VisitKids(o, false, t, k, a, path, depth, device, s);
      && !x.quit
      && x.seen == s.seen + KidsListing(o, t, k, a, depth, device, x.pruned)
      && GrowsFrom(a, k, s.pruned, x.pruned)
    decreases t, |t.kids| - k
  {
    hide Visit, Listing, Clean, CleanFrom, GrowsUnder, GrowsFrom;
    if k == |t.kids| {
      GrowsNot(a, k, s.pruned);
    } else {
      var kid := t.kids[k];
      CleanKid(a, k, s.pruned);
      VisitLists(o, kid, a + [k], Join(path, kid.name), depth + 1, device, s);
      var mid := Visit(o, false, kid, a + [k], Join(path, kid.name), depth + 1, device, s);
      CleanNext(a, k, s.pruned, mid.pruned);
      KidsList(o, t, k + 1, a, path, depth, device, mid);
      var x := VisitKids(o, false, t, k + 1, a, path, depth, device, mid);
      GrowsNext(a, k, s.pruned, mid.pruned, x.pruned);
      ListingFrame(o, kid, a + [k], depth + 1, device, mid.pruned, x.pruned);
    }
  }

  lemma {:induction false} GrowsNot(a: Address, k: nat, p: seq<Address>)
    ensures GrowsFrom(a, k, p, p)
  {
  }

  lemma {:induction false} WalkLists(o: Options, starts: seq<Tree>, k: nat, s: State)
    requires k <= |starts| && !s.quit && CleanFrom([], k, s.pruned)
    ensures var x := Walk(o, false, starts, k, s);
      && x.seen == s.seen + WholeListing(o, starts, k, x.pruned)
      && GrowsFrom([], k, s.pruned, x.pruned)
    decreases |starts| - k
  {
    hide Visit, Listing, Clean, CleanFrom, GrowsUnder, GrowsFrom;
    if k == |starts| {
      GrowsNot([], k, s.pruned);
    } else {
      var t := starts[k];
      assert [] + [k] == [k];
      CleanKid([], k, s.pruned);
      VisitLists(o, t, [k], t.name, 0, t.device, s);
      var mid := Visit(o, false, t, [k], t.name, 0, t.device, s);
      CleanNext([], k, s.pruned, mid.pruned);
      WalkLists(o, starts, k + 1, mid);
      var x := Walk(o, false, starts, k + 1, mid);
      GrowsNext([], k, s.pruned, mid.pruned, x.pruned);
      ListingFrame(o, t, [k], 0, t.device, mid.pruned, x.pruned);
    }
  }

  /** The entries a walk evaluates are the listing of the tree without what was pruned. */
  lemma {:induction false} WalkIsListing(o: Options, starts: seq<Tree>)
    ensures var walk := Walk(o, false, starts, 0, START);
      walk.seen == WholeListing(o, starts, 0, walk.pruned)
  {
    hide Walk, WholeListing;
    WalkLists(o, starts, 0, START);
  }

  // ----- which entries the listing has -----

  /** The entry at the relative address x below t is evaluated: its depth is in range and no
      directory on the way to it is one the walk stays out of. */
  predicate Reached(o: Options, t: Tree, a: Address, x: Address, depth: nat, device: nat, pruned: seq<Address>)
    decreases |x|
  {
    && t.found
    && if x == [] then InRange(o, depth)
       else
         && Enters(o, t, a, depth, device, pruned)
         && x[0] < |t.kids|
         && Reached(o, t.kids[x[0]], a + [x[0]], x[1..], depth + 1, device, pruned)
  }

  ghost predicate AllUnder(a: Address, l: seq<Address>) {
    forall i :: 0 <= i < |l| ==> Under(a, l[i])
  }

  ghost predicate AllFrom(a: Address, k: nat, l: seq<Address>) {
    forall i :: 0 <= i < |l| ==> UnderFrom(a, k, l[i])
  }

  lemma {:induction false} ListingUnder(o: Options, t: Tree, a: Address, depth: nat, device: nat, pruned: seq<Address>)
    ensures AllUnder(a, Listing(o, t, a, depth, device, pruned))
    decreases t, |t.kids| + 1
  {
    hide KidsListing, Enters, InRange;
    KidsUnder(o, t, 0, a, depth, device, pruned);
  }

  lemma {:induction false} KidsUnder(
      o: Options, t: Tree, k: nat, a: Address, depth: nat, device: nat, pruned: seq<Address>)
    requires k <= |t.kids|
    ensures AllFrom(a, k, KidsListing(o, t, k, a, depth, device, pruned))
    decreases t, |t.kids| - k
  {
    hide Listing;
    if k < |t.kids| {
      ListingUnder(o, t.kids[k], a + [k], depth + 1, device, pruned);
      KidsUnder(o, t, k + 1, a, depth, device, pruned);
      FromKid(a, k, Listing(o, t.kids[k], a + [k], depth + 1, device, pruned));
    }
  }

  lemma {:induction false} FromKid(a: Address, k: nat, l: seq<Address>)
    requires AllUnder(a + [k], l)
    ensures AllFrom(a, k, l)
  {
    forall i | 0 <= i < |l|
      ensures UnderFrom(a, k, l[i])
    {
      UnderKid(a, k, l[i]);
    }
  }

  /** An entry is listed exactly when it is reached. */
  lemma {:induction false} ListedIffReached(
      o: Options, t: Tree, a: Address, x: Address, depth: nat, device: nat, pruned: seq<Address>)
    ensures a + x in Listing(o, t, a, depth, device, pruned) <==> Reached(o, t, a, x, depth, device, pruned)
    decreases t, |t.kids| + 1
  {
    hide KidsListing, Enters, InRange;
    var kids := KidsListing(o, t, 0, a, depth, device, pruned);
    KidsUnder(o, t, 0, a, depth, device, pruned);
    if x == [] {
      assert a + x == a;
      assert a !in kids;
    } else {
      assert a + x != a;
      KidListed(o, t, 0, a, x, depth, device, pruned);
    }
  }

  lemma {:induction false} KidListed(
      o: Options, t: Tree, k: nat, a: Address, x: Address, depth: nat, device: nat, pruned: seq<Address>)
    requires k <= |t.kids| && x != []
    ensures a + x in KidsListing(o, t, k, a, depth, device, pruned)
       <==> k <= x[0] < |t.kids| && Reached(o, t.kids[x[0]], a + [x[0]], x[1..], depth + 1, device, pruned)
    decreases t, |t.kids| - k
  {
    hide Listing, Reached;
    if k < |t.kids| {
      var mine := Listing(o, t.kids[k], a + [k], depth + 1, device, pruned);
      KidListed(o, t, k + 1, a, x, depth, device, pruned);
      if x[0] == k {
        assert a + x == (a + [k]) + x[1..];
        ListedIffReached(o, t.kids[k], a + [k], x[1..], depth + 1, device, pruned);
      } else {
        ListingUnder(o, t.kids[k], a + [k], depth + 1, device, pruned);
        UnderKid(a, k, a + x);
        assert a + x !in mine;
      }
    }
  }

  lemma {:induction false} WholeUnder(o: Options, starts: seq<Tree>, k: nat, pruned: seq<Address>)
    requires k <= |starts|
    ensures AllFrom([], k, WholeListing(o, starts, k, pruned))
    decreases |starts| - k
  {
    hide Listing;
    if k < |starts| {
      ListingUnder(o, starts[k], [k], 0, starts[k].device, pruned);
      WholeUnder(o, starts, k + 1, pruned);
      assert [] + [k] == [k];
      FromKid([], k, Listing(o, starts[k], [k], 0, starts[k].device, pruned));
    }
  }

  lemma {:induction false} WholeListed(o: Options, starts: seq<Tree>, k: nat, x: Address, pruned: seq<Address>)
    requires k <= |starts|
    ensures x in WholeListing(o, starts, k, pruned)
       <==> x != [] && k <= x[0] < |starts| && Reached(o, starts[x[0]], x[..1], x[1..], 0, starts[x[0]].device, pruned)
    decreases |starts| - k
  {
    hide Listing, Reached;
    WholeUnder(o, starts, k, pruned);
    if x != [] && k < |starts| {
      WholeListed(o, starts, k + 1, x, pruned);
      if x[0] == k {
        assert x == [k] + x[1..] && x[..1] == [k];
        ListedIffReached(o, starts[k], [k], x[1..], 0, starts[k].device, pruned);
      } else {
        ListingUnder(o, starts[k], [k], 0, starts[k].device, pruned);
        assert [] + [k] == [k];
        UnderKid([], k, x);
      }
    }
  }

  // ----- in which order -----

  /** a comes before b: an ancestor before (or, depth first, after) what is below it, and
      otherwise by the first step in which they differ. */
  predicate Before(depthFirst: bool, a: Address, b: Address)
    decreases |a|
  {
    if a == [] || b == [] then (if depthFirst then a != [] else b != [])
    else a[0] < b[0] || (a[0] == b[0] && Before(depthFirst, a[1..], b[1..]))
  }

  /** The order spelled out: preorder, or postorder with -depth, and children in directory order. */
  lemma {:induction false} BeforeMeans(a: Address, b: Address, k: nat)
    requires k <= |a| && k <= |b| && a[..k] == b[..k]
    ensures k == |a| < |b| ==> Before(false, a, b) && !Before(false, b, a) && Before(true, b, a) && !Before(true, a, b)
    ensures k < |a| && k < |b| && a[k] < b[k] ==>
      Before(false, a, b) && !Before(false, b, a) && Before(true, a, b) && !Before(true, b, a)
    decreases k
  {
    if k > 0 {
      assert a[0] == a[..k][0] == b[0];
      assert a[1..][..k - 1] == a[..k][1..] && b[1..][..k - 1] == b[..k][1..];
      BeforeMeans(a[1..], b[1..], k - 1);
    }
  }

  lemma {:induction false} BeforeWithin(df: bool, a: Address, b: Address, c: Address)
    requires a <= b && a <= c
    ensures Before(df, b, c) <==> Before(df, b[|a|..], c[|a|..])
    decreases |a|
  {
    if a != [] {
      BeforeWithin(df, a[1..], b[1..], c[1..]);
      assert b[1..][|a| - 1..] == b[|a|..] && c[1..][|a| - 1..] == c[|a|..];
    }
  }

  lemma {:induction false} NotBeforeItself(df: bool, a: Address)
    ensures !Before(df, a, a)
    decreases |a|
  {
    if a != [] {
      NotBeforeItself(df, a[1..]);
    }
  }

  ghost predicate Ordered(df: bool, l: seq<Address>) {
    forall i, j :: 0 <= i < j < |l| ==> Before(df, l[i], l[j])
  }

  ghost predicate AllBefore(df: bool, l: seq<Address>, m: seq<Address>) {
    forall i, j :: 0 <= i < |l| && 0 <= j < |m| ==> Before(df, l[i], m[j])
  }

  lemma {:induction false} OrderedJoin(df: bool, l: seq<Address>, m: seq<Address>)
    requires Ordered(df, l) && Ordered(df, m) && AllBefore(df, l, m)
    ensures Ordered(df, l + m)
  {
    forall i, j | 0 <= i < j < |l + m|
      ensures Before(df, (l + m)[i], (l + m)[j])
    {
    }
  }

  /** Entries below the k-th child come before those below later ones. */
  lemma {:induction false} KidsApart(df: bool, a: Address, k: nat, l: seq<Address>, m: seq<Address>)
    requires AllUnder(a + [k], l) && AllFrom(a, k + 1, m)
    ensures AllBefore(df, l, m)
  {
    forall i, j | 0 <= i < |l| && 0 <= j < |m|
      ensures Before(df, l[i], m[j])
    {
      UnderKid(a, k, l[i]);
      BeforeWithin(df, a, l[i], m[j]);
    }
  }

  lemma {:induction false} SelfFirst(a: Address, m: seq<Address>)
    requires AllFrom(a, 0, m)
    ensures AllBefore(false, [a], m) && AllBefore(true, m, [a])
  {
    forall j | 0 <= j < |m|
      ensures Before(false, a, m[j]) && Before(true, m[j], a)
    {
      BeforeWithin(false, a, a, m[j]);
      BeforeWithin(true, a, m[j], a);
    }
  }

  lemma {:induction false} ListingOrdered(
      o: Options, t: Tree, a: Address, depth: nat, device: nat, pruned: seq<Address>)
    ensures Ordered(o.depthFirst, Listing(o, t, a, depth, device, pruned))
    decreases t, |t.kids| + 1
  {
    hide KidsListing, Enters, InRange, Before, Ordered, AllBefore;
    var kids := if Enters(o, t, a, depth, device, pruned) then KidsListing(o, t, 0, a, depth, device, pruned) else [];
    KidsOrdered(o, t, 0, a, depth, device, pruned);
    KidsUnder(o, t, 0, a, depth, device, pruned);
    OrderedShort(o.depthFirst, a);
    SelfFirst(a, kids);
    if o.depthFirst {
      OrderedJoin(true, kids, [a]);
      assert [] + kids + [] == kids && [] + kids + [a] == kids + [a];
    } else {
      OrderedJoin(false, [a], kids);
      assert [] + kids + [] == kids && [a] + kids + [] == [a] + kids;
    }
  }

  lemma {:induction false} OrderedShort(df: bool, a: Address)
    ensures Ordered(df, []) && Ordered(df, [a])
  {
  }

  lemma {:induction false} KidsOrdered(
      o: Options, t: Tree, k: nat, a: Address, depth: nat, device: nat, pruned: seq<Address>)
    requires k <= |t.kids|
    ensures Ordered(o.depthFirst, KidsListing(o, t, k, a, depth, device, pruned))
    decreases t, |t.kids| - k
  {
    hide Listing, Before, Ordered, AllBefore, AllUnder, AllFrom;
    if k == |t.kids| {
      OrderedShort(o.depthFirst, a);
    } else {
      var mine := Listing(o, t.kids[k], a + [k], depth + 1, device, pruned);
      var rest := KidsListing(o, t, k + 1, a, depth, device, pruned);
      ListingOrdered(o, t.kids[k], a + [k], depth + 1, device, pruned);
      KidsOrdered(o, t, k + 1, a, depth, device, pruned);
      ListingUnder(o, t.kids[k], a + [k], depth + 1, device, pruned);
      KidsUnder(o, t, k + 1, a, depth, device, pruned);
      KidsApart(o.depthFirst, a, k, mine, rest);
      OrderedJoin(o.depthFirst, mine, rest);
    }
  }

  lemma {:induction false} WholeOrdered(o: Options, starts: seq<Tree>, k: nat, pruned: seq<Address>)
    requires k <= |starts|
    ensures Ordered(o.depthFirst, WholeListing(o, starts, k, pruned))
    decreases |starts| - k
  {
    hide Listing, Before, Ordered, AllBefore, AllUnder, AllFrom;
    if k == |starts| {
      OrderedShort(o.depthFirst, []);
    } else {
      var mine := Listing(o, starts[k], [k], 0, starts[k].device, pruned);
      var rest := WholeListing(o, starts, k + 1, pruned);
      assert [] + [k] == [k];
      ListingOrdered(o, starts[k], [k], 0, starts[k].device, pruned);
      WholeOrdered(o, starts, k + 1, pruned);
      ListingUnder(o, starts[k], [k], 0, starts[k].device, pruned);
      WholeUnder(o, starts, k + 1, pruned);
      KidsApart(o.depthFirst, [], k, mine, rest);
      OrderedJoin(o.depthFirst, mine, rest);
    }
  }

  lemma {:induction false} NoneTwice(df: bool, l: seq<Address>, i: nat, j: nat)
    requires Ordered(df, l) && i < j < |l|
    ensures l[i] != l[j]
  {
    assert Before(df, l[i], l[j]);
    NotBeforeItself(df, l[i]);
  }

  /** Every run: the entries evaluated are in walk order, none of them twice; they are entries
      that are reached; and unless -quit was evaluated they are all of them. */
  lemma {:induction false} EvaluatedOnceInOrder(o: Options, starts: seq<Tree>, x: Address)
    ensures var run := Walk(o, true, starts, 0, START);
      var reached := x != [] && x[0] < |starts|
        && Reached(o, starts[x[0]], x[..1], x[1..], 0, starts[x[0]].device, Walk(o, false, starts, 0, START).pruned);
      && Ordered(o.depthFirst, run.seen)
      && (forall i, j :: 0 <= i < j < |run.seen| ==> run.seen[i] != run.seen[j])
      && (x in run.seen ==> reached)
      && (!run.quit && reached ==> x in run.seen)
  {
    hide Walk, WholeListing, Reached, Before;
    var run, walk := Walk(o, true, starts, 0, START), Walk(o, false, starts, 0, START);
    QuitCutsTheWalk(o, starts);
    WalkIsListing(o, starts);
    WholeOrdered(o, starts, 0, walk.pruned);
    WholeListed(o, starts, 0, x, walk.pruned);
    forall i, j | 0 <= i < j < |run.seen|
      ensures run.seen[i] != run.seen[j]
    {
      NoneTwice(o.depthFirst, run.seen, i, j);
    }
  }

  /** What is reached is not below anything pruned. */
  lemma {:induction false} ReachedAvoids(
      o: Options, t: Tree, a: Address, x: Address, depth: nat, device: nat, pruned: seq<Address>, p: Address)
    requires Reached(o, t, a, x, depth, device, pruned)
    requires a <= p && p < a + x
    ensures p !in pruned
    decreases |x|
  {
    if p == a {
      assert x != [];
    } else {
      assert p[|a|] == (a + x)[|a|] == x[0];
      assert a + x == (a + [x[0]]) + x[1..];
      assert a + [x[0]] <= p;
      ReachedAvoids(o, t.kids[x[0]], a + [x[0]], x[1..], depth + 1, device, pruned, p);
    }
  }

  /** No run evaluates an entry below a directory it pruned. */
  lemma {:induction false} NothingBelowPruned(o: Options, starts: seq<Tree>, p: Address, x: Address)
    ensures var run := Walk(o, true, starts, 0, START);
      p in run.pruned && p < x && p != [] ==> x !in run.seen
  {
    hide Walk, WholeListing, Reached, Before, Ordered;
    var run, walk := Walk(o, true, starts, 0, START), Walk(o, false, starts, 0, START);
    QuitCutsTheWalk(o, starts);
    if p in run.pruned && p < x && p != [] && x in run.seen {
      EvaluatedOnceInOrder(o, starts, x);
      assert x[..1] + x[1..] == x && x[..1] <= p;
      ReachedAvoids(o, starts[x[0]], x[..1], x[1..], 0, starts[x[0]].device, walk.pruned, p);
      assert false;
    }
  }
}
