/**
 Which entries are evaluated, said of each entry on its own: by its depth, by the directories on the
 way to it, and by what the expression says there.
 */
module FindExact {

  import opened Find
  import opened FindQuit
  import opened FindMeaning
  import opened FindOrder
  import opened FindShow

  lemma {:induction false} PrefixIsEntry(starts: seq<Tree>, a: Address, k: nat)
    requires IsEntry(starts, a) && 1 <= k <= |a|
    ensures IsEntry(starts, a[..k])
    decreases |a|
  {
    if k == |a| {
      assert a[..k] == a;
    } else {
      PrefixIsEntry(starts, a[..|a| - 1], k);
      assert a[..|a| - 1][..k] == a[..k];
    }
  }

  /** The device of the starting point. */
  ghost function StartDevice(starts: seq<Tree>, a: Address): nat
    requires IsEntry(starts, a)
  {
    PrefixIsEntry(starts, a, 1);
    TreeAt(starts, a[..1]).device
  }

  /** The walk goes into the entry, apart from pruning: it is there, is a directory and opens, is less
      deep than -maxdepth, and with -xdev on the device of its starting point. */
  ghost predicate Passable(o: Options, starts: seq<Tree>, a: Address)
    requires IsEntry(starts, a)
  {
    var t := TreeAt(starts, a);
    && t.found && t.directory && t.opens
    && (o.maxdepth >= 0 ==> |a| - 1 < o.maxdepth)
    && (o.xdev && |a| > 1 ==> t.device == StartDevice(starts, a))
  }

  /** Every directory on the way to x can be passed and is not in the list. */
  ghost predicate Way(o: Options, starts: seq<Tree>, x: Address, pruned: seq<Address>)
    requires IsEntry(starts, x)
  {
    forall k :: 1 <= k < |x| ==> Open(o, starts, x, k, pruned)
  }

  ghost predicate Open(o: Options, starts: seq<Tree>, x: Address, k: nat, pruned: seq<Address>)
    requires IsEntry(starts, x) && 1 <= k <= |x|
  {
    PrefixIsEntry(starts, x, k);
    Passable(o, starts, x[..k]) && x[..k] !in pruned
  }

  lemma {:induction false} OpenIsEntered(o: Options, starts: seq<Tree>, x: Address, k: nat, pruned: seq<Address>)
    requires IsEntry(starts, x) && 1 <= k <= |x|
    ensures IsEntry(starts, x[..k])
    ensures var t := TreeAt(starts, x[..k]);
      Open(o, starts, x, k, pruned)
      <==> t.found && Enters(o, t, x[..k], k - 1, StartDevice(starts, x[..k]), pruned)
  {
    hide IsEntry, TreeAt;
    PrefixIsEntry(starts, x, k);
    assert k == 1 ==> x[..k][..1] == x[..k];
  }

  /** One step further on the way to x. */
  lemma {:induction false} NextOnWay(starts: seq<Tree>, x: Address, k: nat)
    requires 1 <= k < |x| && IsEntry(starts, x[..k])
    ensures x[..k + 1] == x[..k] + [x[k]]
    ensures IsEntry(starts, x) ==> x[k] < |TreeAt(starts, x[..k]).kids|
    ensures x[k] < |TreeAt(starts, x[..k]).kids| ==>
      && IsEntry(starts, x[..k + 1]) && TreeAt(starts, x[..k + 1]) == TreeAt(starts, x[..k]).kids[x[k]]
      && StartDevice(starts, x[..k + 1]) == StartDevice(starts, x[..k])
  {
    hide PathOf;
    assert x[..k + 1][..k] == x[..k] && x[..k + 1][..1] == x[..k][..1];
    if IsEntry(starts, x) {
      PrefixIsEntry(starts, x, k + 1);
    }
  }

  /** Reached from the entry x[..k] on. */
  lemma {:induction false} ReachedBelow(o: Options, starts: seq<Tree>, x: Address, k: nat, pruned: seq<Address>)
    requires 1 <= k <= |x| && IsEntry(starts, x[..k])
    ensures Reached(o, TreeAt(starts, x[..k]), x[..k], x[k..], k - 1, StartDevice(starts, x[..k]), pruned)
       <==> IsEntry(starts, x) && TreeAt(starts, x).found && |x| - 1 >= o.mindepth
            && forall j :: k <= j < |x| ==> Open(o, starts, x, j, pruned)
    decreases |x| - k
  {
    hide IsEntry, TreeAt, Open, Enters, StartDevice;
    if k == |x| {
      assert x[..k] == x && x[k..] == [];
    } else {
      assert x[k..][0] == x[k] && x[k..][1..] == x[k + 1..];
      NextOnWay(starts, x, k);
      if x[k] < |TreeAt(starts, x[..k]).kids| {
        ReachedBelow(o, starts, x, k + 1, pruned);
        if IsEntry(starts, x) {
          OpenIsEntered(o, starts, x, k, pruned);
          assert (forall j :: k <= j < |x| ==> Open(o, starts, x, j, pruned))
            <==> Open(o, starts, x, k, pruned) && forall j :: k + 1 <= j < |x| ==> Open(o, starts, x, j, pruned);
        }
      }
    }
  }

  /** For every entry: it is reached exactly when it is there, deep enough, and the way to it is open. */
  lemma {:induction false} ReachedMeans(o: Options, starts: seq<Tree>, x: Address, pruned: seq<Address>)
    ensures (x != [] && x[0] < |starts|
             && Reached(o, starts[x[0]], x[..1], x[1..], 0, starts[x[0]].device, pruned))
       <==> IsEntry(starts, x) && TreeAt(starts, x).found && |x| - 1 >= o.mindepth && Way(o, starts, x, pruned)
  {
    hide Reached, Open;
    if x != [] && x[0] < |starts| {
      var a := x[..1];
      assert IsEntry(starts, a) && TreeAt(starts, a) == starts[x[0]] && a[..1] == a;
      ReachedBelow(o, starts, x, 1, pruned);
    } else if IsEntry(starts, x) {
      PrefixIsEntry(starts, x, 1);
      assert false;
    }
  }

  // ----- the whole run -----

  predicate NeverQuits(e: Expr) {
    match e
    case Leaf(p) => p != Quit
    case And(l, r) => NeverQuits(l) && NeverQuits(r)
    case Or(l, r) => NeverQuits(l) && NeverQuits(r)
    case Comma(l, r) => NeverQuits(l) && NeverQuits(r)
    case Not(l) => NeverQuits(l)
  }

  lemma {:induction false} NotAsked(e: Expr, t: Primary -> bool)
    requires NeverQuits(e)
    ensures Quit !in Asked(e, t)
    decreases e
  {
    match e
    case Leaf(p) =>
    case And(l, r) =>
      NotAsked(l, t);
      NotAsked(r, t);
    case Or(l, r) =>
      NotAsked(l, t);
      NotAsked(r, t);
    case Comma(l, r) =>
      NotAsked(l, t);
      NotAsked(r, t);
    case Not(l) => NotAsked(l, t);
  }

  /** -prune is asked at the entry, the entry is evaluated, and before its contents. */
  ghost predicate KeptOut(o: Options, starts: seq<Tree>, a: Address)
    requires IsEntry(starts, a)
  {
    !o.depthFirst && |a| - 1 >= o.mindepth && Prune in Asked(o.expr, AnswersAt(o, a, PathOf(starts, a)))
  }

  ghost predicate Evaluates(o: Options, starts: seq<Tree>, x: Address) {
    && IsEntry(starts, x) && TreeAt(starts, x).found && |x| - 1 >= o.mindepth
    && forall k :: 1 <= k < |x| ==> Leads(o, starts, x, k)
  }

  ghost predicate Leads(o: Options, starts: seq<Tree>, x: Address, k: nat)
    requires IsEntry(starts, x) && 1 <= k <= |x|
  {
    PrefixIsEntry(starts, x, k);
    Passable(o, starts, x[..k]) && !KeptOut(o, starts, x[..k])
  }

  /** The entries evaluated by the walk on which -quit has no effect. */
  lemma {:induction false} WalkSees(o: Options, starts: seq<Tree>, x: Address)
    ensures var walk := Walk(o, false, starts, 0, START);
      x in walk.seen
      <==> IsEntry(starts, x) && TreeAt(starts, x).found && |x| - 1 >= o.mindepth && Way(o, starts, x, walk.pruned)
  {
    hide Walk, WholeListing, Reached, IsEntry, TreeAt, Way;
    var walk := Walk(o, false, starts, 0, START);
    WalkIsListing(o, starts);
    WholeListed(o, starts, 0, x, walk.pruned);
    ReachedMeans(o, starts, x, walk.pruned);
  }

  /** The prunings of the walk. */
  lemma {:induction false} WalkPrunes(o: Options, starts: seq<Tree>, b: Address)
    requires Steady(o) && IsEntry(starts, b)
    ensures var walk := Walk(o, false, starts, 0, START);
      b in walk.pruned <==> b in walk.seen && PrunedAt(o, false, starts, b)
  {
    hide Walk, Steady, IsEntry, PrunedAt, Says, Selected, QuitAt;
    RunShows(o, false, starts);
    var walk := Walk(o, false, starts, 0, START);
    if b in walk.seen {
      var i :| 0 <= i < |walk.seen| && walk.seen[i] == b;
    }
  }

  /** Pruned or kept out: the same on an open way. */
  lemma {:induction false} OpenIsLeads(o: Options, starts: seq<Tree>, x: Address, k: nat)
    requires Steady(o) && IsEntry(starts, x) && 1 <= k <= |x|
    requires forall j :: 1 <= j < k ==> Open(o, starts, x, j, Walk(o, false, starts, 0, START).pruned)
    ensures Open(o, starts, x, k, Walk(o, false, starts, 0, START).pruned) <==> Leads(o, starts, x, k)
  {
    hide Walk, Steady, IsEntry, TreeAt, PathOf, Asked, AnswersAt;
    PrefixIsEntry(starts, x, k);
    var b, pruned := x[..k], Walk(o, false, starts, 0, START).pruned;
    WalkSees(o, starts, b);
    WalkPrunes(o, starts, b);
    assert Way(o, starts, b, pruned) by {
      forall j | 1 <= j < |b|
        ensures Open(o, starts, b, j, pruned)
      {
        assert b[..j] == x[..j];
        assert Open(o, starts, x, j, pruned);
      }
    }
  }

  lemma {:induction false} WayLeads(o: Options, starts: seq<Tree>, x: Address, n: nat)
    requires Steady(o) && IsEntry(starts, x) && n <= |x|
    ensures var pruned := Walk(o, false, starts, 0, START).pruned;
      (forall k :: 1 <= k < n ==> Open(o, starts, x, k, pruned))
        <==> (forall k :: 1 <= k < n ==> Leads(o, starts, x, k))
    decreases n
  {
    hide Walk, Steady, IsEntry, Open, Leads;
    if n > 1 {
      WayLeads(o, starts, x, n - 1);
      var pruned := Walk(o, false, starts, 0, START).pruned;
      if forall k :: 1 <= k < n - 1 ==> Open(o, starts, x, k, pruned) {
        OpenIsLeads(o, starts, x, n - 1);
      }
    }
  }

  /** With steady answers and no -quit: an entry is evaluated exactly when it is there, deep enough, and
      every directory on the way to it is there, is one, opens, is less deep than -maxdepth, on the
      right device under -xdev, and not one where -prune is asked. */
  lemma {:induction false} FindsExactly(o: Options, starts: seq<Tree>, x: Address)
    requires Steady(o) && NeverQuits(o.expr)
    ensures x in Walk(o, true, starts, 0, START).seen <==> Evaluates(o, starts, x)
  {
    hide Walk, Steady, IsEntry, TreeAt, Open, Leads, Reached, Ordered, Way, Evaluates;
    var run, walk := Walk(o, true, starts, 0, START), Walk(o, false, starts, 0, START);
    NotQuit(o, starts);
    EvaluatedOnceInOrder(o, starts, x);
    ReachedMeans(o, starts, x, walk.pruned);
    var reached := x != [] && x[0] < |starts|
      && Reached(o, starts[x[0]], x[..1], x[1..], 0, starts[x[0]].device, walk.pruned);
    assert x in run.seen <==> reached;
    if IsEntry(starts, x) {
      EvaluatesByWay(o, starts, x);
    } else {
      NoEntryNotEvaluated(o, starts, x);
    }
  }

  lemma {:induction false} NoEntryNotEvaluated(o: Options, starts: seq<Tree>, x: Address)
    requires !IsEntry(starts, x)
    ensures !Evaluates(o, starts, x)
  {
  }

  lemma {:induction false} EvaluatesByWay(o: Options, starts: seq<Tree>, x: Address)
    requires Steady(o) && IsEntry(starts, x)
    ensures var pruned := Walk(o, false, starts, 0, START).pruned;
      Evaluates(o, starts, x) <==> TreeAt(starts, x).found && |x| - 1 >= o.mindepth && Way(o, starts, x, pruned)
  {
    hide Walk, Steady, IsEntry, TreeAt, Open, Leads;
    WayLeads(o, starts, x, |x|);
    var pruned := Walk(o, false, starts, 0, START).pruned;
    if Way(o, starts, x, pruned) {
      assert forall k :: 1 <= k < |x| ==> Open(o, starts, x, k, pruned);
    } else {
      assert !(forall k :: 1 <= k < |x| ==> Open(o, starts, x, k, pruned));
    }
  }

  lemma {:induction false} NotQuit(o: Options, starts: seq<Tree>)
    requires Steady(o) && NeverQuits(o.expr)
    ensures !Walk(o, true, starts, 0, START).quit
  {
    hide Walk, Steady, IsEntry, PrunedAt, Says, Selected;
    RunShows(o, true, starts);
    var run := Walk(o, true, starts, 0, START);
    if run.quit {
      var a := run.seen[|run.seen| - 1];
      NotAsked(o.expr, AnswersAt(o, a, PathOf(starts, a)));
      assert false;
    }
  }

  // ----- paths -----

  /** The names behind the first, each behind a slash. */
  ghost function Slashed(starts: seq<Tree>, a: Address): string
    requires IsEntry(starts, a)
    decreases |a|
  {
    if |a| == 1 then "" else Slashed(starts, a[..|a| - 1]) + "/" + TreeAt(starts, a).name
  }

  /** File names are not empty and have no slash. */
  ghost predicate NamesOk(starts: seq<Tree>, a: Address)
    requires IsEntry(starts, a)
    decreases |a|
  {
    |a| == 1 || (TreeAt(starts, a).name != "" && '/' !in TreeAt(starts, a).name && NamesOk(starts, a[..|a| - 1]))
  }

  /** A path is the name of the starting point and the names below it, one slash between two. */
  lemma {:induction false} PathIsNames(starts: seq<Tree>, a: Address)
    requires IsEntry(starts, a) && NamesOk(starts, a)
    ensures a[0] < |starts|
    ensures var start, more := starts[a[0]].name, Slashed(starts, a);
      && PathOf(starts, a) == (if more != "" && EndsInSlash(start) then start + more[1..] else start + more)
      && (|a| > 1 ==> more != "" && more[0] == '/' && !EndsInSlash(PathOf(starts, a)))
    decreases |a|
  {
    hide IsEntry, TreeAt, NamesOk, Find.Join, EndsInSlash, PathOf, Slashed;
    EntryParts(starts, a);
    PathUnfolds(starts, a);
    if |a| > 1 {
      var b, name := a[..|a| - 1], TreeAt(starts, a).name;
      PathIsNames(starts, b);
      PathUnfolds(starts, b);
      JoinedName(PathOf(starts, b), name);
      OneMoreName(starts[a[0]].name, Slashed(starts, b), name);
    }
  }

  lemma {:induction false} PathUnfolds(starts: seq<Tree>, a: Address)
    requires IsEntry(starts, a)
    ensures a != [] && (|a| == 1 ==> a[0] < |starts|)
    ensures |a| == 1 ==> Slashed(starts, a) == "" && PathOf(starts, a) == starts[a[0]].name
    ensures |a| > 1 ==> IsEntry(starts, a[..|a| - 1])
    ensures |a| > 1 ==>
      && Slashed(starts, a) == Slashed(starts, a[..|a| - 1]) + "/" + TreeAt(starts, a).name
      && PathOf(starts, a) == Join(PathOf(starts, a[..|a| - 1]), TreeAt(starts, a).name)
  {
    hide Find.Join, TreeAt;
  }

  lemma {:induction false} OneMoreName(start: string, more: string, name: string)
    ensures var all := more + "/" + name; all != "" && (more != "" && more[0] == '/' ==> all[0] == '/')
    ensures more == "" ==> (more + "/" + name)[0] == '/' && (more + "/" + name)[1..] == name
    ensures more != "" ==> start + more[1..] + "/" + name == start + (more + "/" + name)[1..]
    ensures start + more + "/" + name == start + (more + "/" + name)
    ensures start + "" == start
  {
    if more != "" {
      assert (more + "/" + name)[1..] == more[1..] + "/" + name;
    }
  }

  predicate EndsInSlash(s: string) {
    s != "" && s[|s| - 1] == '/'
  }

  lemma {:induction false} EntryParts(starts: seq<Tree>, a: Address)
    requires IsEntry(starts, a) && NamesOk(starts, a)
    ensures a != [] && a[0] < |starts|
    ensures |a| == 1 ==> TreeAt(starts, a) == starts[a[0]]
    ensures |a| > 1 ==>
      && IsEntry(starts, a[..|a| - 1]) && NamesOk(starts, a[..|a| - 1]) && a[..|a| - 1][0] == a[0]
      && TreeAt(starts, a).name != "" && '/' !in TreeAt(starts, a).name
    decreases |a|
  {
    if |a| > 1 {
      EntryParts(starts, a[..|a| - 1]);
    }
  }

  lemma {:induction false} JoinedName(path: string, name: string)
    requires name != "" && '/' !in name
    ensures Join(path, name) == (if EndsInSlash(path) then path + name else path + "/" + name)
    ensures !EndsInSlash(Join(path, name))
  {
    assert name[|name| - 1] in name;
  }
}
