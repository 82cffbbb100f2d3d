/**
 * The order in which the manager's recursive add and remove walks visit
 * bundle names: each dependency's own walk, in manifest order, and then the
 * bundle itself. A shared dependency is visited once per path to it.
 *
 * The walks recurse through the info map without a visited set, so they
 * only end on an acyclic dependency graph; `Ranked` states that the map is
 * closed under dependencies and acyclic, by a rank that every dependency
 * lowers. Without a rank, `WalkWithin` unfolds the recursion to a given
 * depth: on a cycle it never ends (`CycleNeverEnds`), while the walk with a
 * path guard (`GuardedOrder`) always ends and agrees with `VisitOrder`
 * wherever a rank exists.
 */
module DependencyWalk {
  import opened Common
  import opened BundleInfo

  function Deps(infos: map<string, Info>, n: string): seq<string>
    requires n in infos
  {
    infos[n].manifestInfo.dependencies
  }

  /** Every dependency of every bundle is itself in the map, with a smaller rank. */
  predicate Ranked(infos: map<string, Info>, rank: map<string, nat>) {
    forall n :: n in infos ==>
      n in rank && forall d :: d in Deps(infos, n) ==> d in infos && d in rank && rank[d] < rank[n]
  }

  /** The names that all lie below `bound`. */
  predicate Below(infos: map<string, Info>, rank: map<string, nat>, bound: nat, ds: seq<string>) {
    forall d :: d in ds ==> d in infos && d in rank && rank[d] < bound
  }

  /** AddRequestInternalWithDependencies / RemoveRequestInternalWithDependencies: the names in visit order. */
  function VisitOrder(infos: map<string, Info>, rank: map<string, nat>, name: string): seq<string>
    requires Ranked(infos, rank) && name in infos
    decreases rank[name], 1, 0
  {
    VisitList(infos, rank, rank[name], Deps(infos, name)) + [name]
  }

  /** The walks of the names `ds`, one after another. */
  function VisitList(infos: map<string, Info>, rank: map<string, nat>, bound: nat, ds: seq<string>): seq<string>
    requires Ranked(infos, rank) && Below(infos, rank, bound, ds)
    decreases bound, 0, |ds|
  {
    if ds == [] then []
    else
      var last := ds[|ds| - 1];
      assert last in ds;
      VisitList(infos, rank, bound, ds[..|ds| - 1]) + VisitOrder(infos, rank, last)
  }

  /** Walking a list one name further appends that name's walk. */
  lemma VisitListSnoc(infos: map<string, Info>, rank: map<string, nat>, bound: nat, ds: seq<string>, i: nat)
    requires Ranked(infos, rank) && Below(infos, rank, bound, ds) && i < |ds|
    ensures Below(infos, rank, bound, ds[..i]) && Below(infos, rank, bound, ds[..i + 1])
    ensures VisitList(infos, rank, bound, ds[..i + 1]) ==
      VisitList(infos, rank, bound, ds[..i]) + VisitOrder(infos, rank, ds[i])
  {
    assert ds[..i + 1][..i] == ds[..i];
    assert ds[..i + 1][i] == ds[i];
  }

  /**
   * Every name a walk visits is in the map and ranks at most as high as the
   * bundle walked; only the bundle itself reaches its rank, so it is
   * visited exactly once, last, after all its dependencies.
   */
  lemma {:induction false} VisitOrderRanks(infos: map<string, Info>, rank: map<string, nat>, name: string, y: string)
    requires Ranked(infos, rank) && name in infos
    ensures y in VisitOrder(infos, rank, name) ==> y in infos && y in rank && rank[y] <= rank[name]
    ensures y in VisitOrder(infos, rank, name) && y != name ==> rank[y] < rank[name]
    ensures Occ(VisitOrder(infos, rank, name), name) == 1
    decreases rank[name], 1, 0
  {
    var ds := Deps(infos, name);
    var vl := VisitList(infos, rank, rank[name], ds);
    VisitListRanks(infos, rank, rank[name], ds, y);
    VisitListRanks(infos, rank, rank[name], ds, name);
    assert VisitOrder(infos, rank, name) == vl + [name];
    assert multiset(vl + [name]) == multiset(vl) + multiset{name};
    assert name !in vl;
  }

  lemma {:induction false} VisitListRanks(infos: map<string, Info>, rank: map<string, nat>, bound: nat, ds: seq<string>, y: string)
    requires Ranked(infos, rank) && Below(infos, rank, bound, ds)
    ensures y in VisitList(infos, rank, bound, ds) ==> y in infos && y in rank && rank[y] < bound
    decreases bound, 0, |ds|
  {
    if ds != [] {
      var last := ds[|ds| - 1];
      assert last in ds;
      VisitListRanks(infos, rank, bound, ds[..|ds| - 1], y);
      VisitOrderRanks(infos, rank, last, y);
    }
  }

  // ----- manifests with a cycle -----

  /** Every dependency of every bundle is itself in the map (the walks' lookups never throw). */
  predicate Closed(infos: map<string, Info>) {
    forall n :: n in infos ==> forall d :: d in Deps(infos, n) ==> d in infos
  }

  /**
   * The walk as the C# recursion runs it, with no rank to order the
   * manifest: unfolded at most `fuel` calls deep, `None` when that depth
   * does not suffice.
   */
  function WalkWithin(infos: map<string, Info>, fuel: nat, name: string): Option<seq<string>>
    requires Closed(infos) && name in infos
    decreases fuel, 0
  {
    if fuel == 0 then None
    else
      match ListWithin(infos, fuel - 1, Deps(infos, name))
      case None => None
      case Some(v) => Some(v + [name])
  }

  /** The walks of the names `ds` one after another, each within the depth `fuel`. */
  function ListWithin(infos: map<string, Info>, fuel: nat, ds: seq<string>): Option<seq<string>>
    requires Closed(infos) && forall d :: d in ds ==> d in infos
    decreases fuel, 1, |ds|
  {
    if ds == [] then Some([])
    else
      var last := ds[|ds| - 1];
      assert last in ds;
      match (ListWithin(infos, fuel, ds[..|ds| - 1]), WalkWithin(infos, fuel, last))
      case (Some(v), Some(w)) => Some(v + w)
      case _ => None
  }

  /** On a ranked manifest the recursion ends within its rank, in the order VisitOrder gives. */
  lemma {:induction false} WithinRanked(infos: map<string, Info>, rank: map<string, nat>, fuel: nat, name: string)
    requires Ranked(infos, rank) && name in infos && fuel > rank[name]
    ensures Closed(infos) && WalkWithin(infos, fuel, name) == Some(VisitOrder(infos, rank, name))
    decreases rank[name], 1
  {
    ListWithinRanked(infos, rank, rank[name], fuel - 1, Deps(infos, name));
  }

  lemma {:induction false} ListWithinRanked(infos: map<string, Info>, rank: map<string, nat>, bound: nat, fuel: nat, ds: seq<string>)
    requires Ranked(infos, rank) && Below(infos, rank, bound, ds) && fuel >= bound
    ensures Closed(infos) && ListWithin(infos, fuel, ds) == Some(VisitList(infos, rank, bound, ds))
    decreases bound, 0, |ds|
  {
    if ds != [] {
      var last := ds[|ds| - 1];
      assert last in ds;
      ListWithinRanked(infos, rank, bound, fuel, ds[..|ds| - 1]);
      WithinRanked(infos, rank, fuel, last);
    }
  }

  /**
   * A cycle: every name of `cycle` lists, as `next` says, a dependency that
   * is again in `cycle`. Then the recursion from any of them does not end
   * at any depth.
   */
  lemma {:induction false} CycleNeverEnds(infos: map<string, Info>, cycle: set<string>, next: map<string, string>, fuel: nat)
    requires Closed(infos)
    requires forall n :: n in cycle ==> n in infos && n in next && next[n] in cycle && next[n] in Deps(infos, n)
    ensures forall n :: n in cycle ==> WalkWithin(infos, fuel, n) == None
    decreases fuel
  {
    if fuel > 0 {
      CycleNeverEnds(infos, cycle, next, fuel - 1);
      forall n | n in cycle ensures WalkWithin(infos, fuel, n) == None {
        var ds := Deps(infos, n);
        var i :| 0 <= i < |ds| && ds[i] == next[n];
        ListWithinNone(infos, fuel - 1, ds, i);
      }
    }
  }

  /** One walk of the list that does not end makes the whole list not end. */
  lemma {:induction false} ListWithinNone(infos: map<string, Info>, fuel: nat, ds: seq<string>, i: nat)
    requires Closed(infos) && (forall d :: d in ds ==> d in infos) && i < |ds|
    requires WalkWithin(infos, fuel, ds[i]) == None
    ensures ListWithin(infos, fuel, ds) == None
    decreases |ds|
  {
    if i < |ds| - 1 {
      assert ds[..|ds| - 1][i] == ds[i];
      ListWithinNone(infos, fuel, ds[..|ds| - 1], i);
    }
  }

  /**
   * The walk with the guard the recursion lacks: a dependency already on
   * the current path (`path`, the bundles whose walks are under way) is
   * skipped. It ends on every closed manifest, never visits a name on its
   * path, and visits the bundle itself last.
   */
  function GuardedOrder(infos: map<string, Info>, path: set<string>, name: string): (r: seq<string>)
    requires Closed(infos) && name in infos && name !in path
    ensures |r| > 0 && r[|r| - 1] == name
    ensures forall y :: y in r ==> y in infos && y !in path
    decreases infos.Keys - path, 0
  {
    assert name in infos.Keys - path && name !in infos.Keys - (path + {name});
    GuardedList(infos, path + {name}, Deps(infos, name)) + [name]
  }

  /** The guarded walks of the names `ds`, one after another. */
  function GuardedList(infos: map<string, Info>, path: set<string>, ds: seq<string>): (r: seq<string>)
    requires Closed(infos) && forall d :: d in ds ==> d in infos
    ensures forall y :: y in r ==> y in infos && y !in path
    decreases infos.Keys - path, 1, |ds|
  {
    if ds == [] then []
    else
      var last := ds[|ds| - 1];
      assert last in ds;
      GuardedList(infos, path, ds[..|ds| - 1]) + (if last in path then [] else GuardedOrder(infos, path, last))
  }

  /**
   * On a ranked manifest the guard never fires: every name on the path
   * ranks above the bundle walked, so the guarded walk is VisitOrder.
   */
  lemma {:induction false} GuardedRanked(infos: map<string, Info>, rank: map<string, nat>, path: set<string>, name: string)
    requires Ranked(infos, rank) && name in infos
    requires forall p :: p in path ==> p in rank && rank[p] > rank[name]
    ensures Closed(infos) && name !in path && GuardedOrder(infos, path, name) == VisitOrder(infos, rank, name)
    decreases rank[name], 1
  {
    GuardedListRanked(infos, rank, rank[name], path + {name}, Deps(infos, name));
  }

  lemma {:induction false} GuardedListRanked(infos: map<string, Info>, rank: map<string, nat>, bound: nat, path: set<string>, ds: seq<string>)
    requires Ranked(infos, rank) && Below(infos, rank, bound, ds)
    requires forall p :: p in path ==> p in rank && rank[p] >= bound
    ensures Closed(infos) && GuardedList(infos, path, ds) == VisitList(infos, rank, bound, ds)
    decreases bound, 0, |ds|
  {
    if ds != [] {
      var last := ds[|ds| - 1];
      assert last in ds;
      GuardedListRanked(infos, rank, bound, path, ds[..|ds| - 1]);
      GuardedRanked(infos, rank, path, last);
    }
  }
}
