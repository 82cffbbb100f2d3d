/**
 * The scheduler's collections as values, and what the add and release
 * walks do to them: the account of a walk (`Grown`, `Shrunk`), the
 * relations that always hold between the collections (`Coherent`), and the
 * round trip of an add walk followed by the release walk of the same name.
 */
module ManagerState {
  import opened Common
  import opened BundleInfo
  import BL = BundleLoad
  import AL = AssetLoad
  import RequestQueue
  import RefCount
  import DependencyWalk

  /** `ulong` arithmetic wraps modulo 2^64. */
  const ULongModulus: nat := 0x1_0000_0000_0000_0000

  /** The bundle names of a sequence of requests. */
  function Names(q: seq<BL.BundleLoadRequest>): (r: seq<string>)
    ensures |r| == |q| && forall i :: 0 <= i < |q| ==> r[i] == q[i].assetBundleName
  {
    seq(|q|, i requires 0 <= i < |q| => q[i].assetBundleName)
  }

  lemma NamesConcat(a: seq<BL.BundleLoadRequest>, b: seq<BL.BundleLoadRequest>)
    ensures Names(a + b) == Names(a) + Names(b)
  {
    assert |Names(a + b)| == |Names(a) + Names(b)|;
    forall i | 0 <= i < |a + b| ensures Names(a + b)[i] == (Names(a) + Names(b))[i] {
      if i < |a| {
        assert (a + b)[i] == a[i];
      } else {
        assert (a + b)[i] == b[i - |a|];
      }
    }
  }

  /** Naming one more request extends the names by its name. */
  lemma NamesSnoc(requests: seq<BL.BundleLoadRequest>, r: BL.BundleLoadRequest, ds: seq<string>, i: nat)
    requires i < |ds| && Names(requests) == ds[..i] && r.assetBundleName == ds[i]
    ensures Names(requests + [r]) == ds[..i + 1]
  {
    NamesConcat(requests, [r]);
    assert ds[..i + 1] == ds[..i] + [ds[i]];
  }

  /**
   * What an add walk along the names `visited` did to the counts, the map
   * and the pending queue: the counts are the add fold along the walk,
   * every old entry stays, the map gains exactly the visited names, and the
   * queue keeps its old requests in front of the new ones, which are the
   * first sightings in the order of the walk.
   */
  predicate Grown(c0: RefCount.Counts, m0: map<string, BL.BundleLoadRequest>, q0: seq<BL.BundleLoadRequest>,
                  c: RefCount.Counts, m: map<string, BL.BundleLoadRequest>, q: seq<BL.BundleLoadRequest>,
                  visited: seq<string>)
  {
    && c == RefCount.AddAll(c0, visited)
    && (forall n :: n in m0 ==> n in m && m[n] == m0[n])
    && m.Keys == m0.Keys + Elems(visited)
    && |q0| <= |q| && q[..|q0|] == q0
    && Names(q[|q0|..]) == RefCount.Created(m0.Keys, visited)
  }

  lemma GrownNone(c: RefCount.Counts, m: map<string, BL.BundleLoadRequest>, q: seq<BL.BundleLoadRequest>)
    ensures Grown(c, m, q, c, m, q, [])
  {
    assert q[..|q|] == q;
    assert Elems<string>([]) == {};
  }

  /** One visit of AddRequestInternal(string), in the terms of a walk. */
  lemma GrownOne(c0: RefCount.Counts, m0: map<string, BL.BundleLoadRequest>, q0: seq<BL.BundleLoadRequest>,
                 c: RefCount.Counts, m: map<string, BL.BundleLoadRequest>, q: seq<BL.BundleLoadRequest>,
                 name: string)
    requires c == RefCount.AddOne(c0, name) && name in m
    requires name in m0 ==> m == m0 && q == q0
    requires name !in m0 ==> m == m0[name := m[name]] && q == q0 + [m[name]] && m[name].assetBundleName == name
    ensures Grown(c0, m0, q0, c, m, q, [name])
  {
    assert [name][1..] == [];
    assert Elems([name]) == {name};
    assert q[..|q0|] == q0;
    if name !in m0 {
      assert q[|q0|..] == [m[name]];
    }
  }

  /** Two walks one after the other are one walk along both. */
  lemma GrownCompose(c0: RefCount.Counts, m0: map<string, BL.BundleLoadRequest>, q0: seq<BL.BundleLoadRequest>,
                     c1: RefCount.Counts, m1: map<string, BL.BundleLoadRequest>, q1: seq<BL.BundleLoadRequest>,
                     c2: RefCount.Counts, m2: map<string, BL.BundleLoadRequest>, q2: seq<BL.BundleLoadRequest>,
                     v1: seq<string>, v2: seq<string>)
    requires Grown(c0, m0, q0, c1, m1, q1, v1) && Grown(c1, m1, q1, c2, m2, q2, v2)
    ensures Grown(c0, m0, q0, c2, m2, q2, v1 + v2)
  {
    RefCount.AddAllConcat(c0, v1, v2);
    RefCount.CreatedConcat(m0.Keys, v1, v2);
    assert Elems(v1 + v2) == Elems(v1) + Elems(v2);
    assert q2[..|q1|] == q1;
    assert q2[..|q0|] == q1[..|q0|];
    assert q2[|q0|..] == q1[|q0|..] + q2[|q1|..];
    NamesConcat(q1[|q0|..], q2[|q1|..]);
  }

  /** Every stored dependency list names the manifest dependencies of its request's bundle, in order. */
  predicate ListsNamed(infos: map<string, Info>, lists: map<BL.BundleLoadRequest, seq<BL.BundleLoadRequest>>) {
    forall b :: b in lists ==>
      b.assetBundleName in infos && Names(lists[b]) == infos[b.assetBundleName].manifestInfo.dependencies
  }

  /** Storing a list that names the request's manifest dependencies keeps every list named. */
  lemma ListsNamedUpdate(infos: map<string, Info>, lists: map<BL.BundleLoadRequest, seq<BL.BundleLoadRequest>>,
                         b: BL.BundleLoadRequest, l: seq<BL.BundleLoadRequest>)
    requires ListsNamed(infos, lists) && b.assetBundleName in infos
    requires Names(l) == infos[b.assetBundleName].manifestInfo.dependencies
    ensures ListsNamed(infos, lists[b := l])
  {
  }

  /** Every name of `visited` is mapped, and its request holds a dependency list. */
  predicate Linked(m: map<string, BL.BundleLoadRequest>, lists: map<BL.BundleLoadRequest, seq<BL.BundleLoadRequest>>,
                   visited: seq<string>) {
    forall n :: n in visited ==> n in m && m[n] in lists
  }

  /** Two walks one after the other, the second keeping the entries and lists of the first. */
  lemma LinkedCompose(m1: map<string, BL.BundleLoadRequest>, l1: map<BL.BundleLoadRequest, seq<BL.BundleLoadRequest>>,
                      m2: map<string, BL.BundleLoadRequest>, l2: map<BL.BundleLoadRequest, seq<BL.BundleLoadRequest>>,
                      v1: seq<string>, v2: seq<string>)
    requires Linked(m1, l1, v1) && Linked(m2, l2, v2)
    requires (forall n :: n in m1 ==> n in m2 && m2[n] == m1[n]) && l1.Keys <= l2.Keys
    ensures Linked(m2, l2, v1 + v2)
  {
  }

  /** The manager's collections, as values. */
  datatype Tables = Tables(
    queue: seq<BL.BundleLoadRequest>,
    errors: seq<BL.BundleLoadRequest>,
    loading: set<BL.BundleLoadRequest>,
    downloading: set<BL.BundleLoadRequest>,
    requests: map<string, BL.BundleLoadRequest>,
    counts: RefCount.Counts,
    assetLoading: set<AL.AssetLoadRequest>,
    bundles: set<BL.BundleLoadRequest>,
    assets: set<AL.AssetLoadRequest>)

  /**
   * How the collections relate: every map entry is stored under its own
   * name and has a count; a pending request is the map's current entry for
   * its name and is neither active nor failed; a failed request is not
   * active; the active sets are disjoint; neither queue holds a request
   * twice; every request is one the manager created.
   */
  predicate Coherent(t: Tables) {
    && t.requests.Values <= t.bundles
    && t.counts.Keys == t.requests.Keys
    && (forall n :: n in t.requests ==> t.requests[n].assetBundleName == n)
    && t.loading <= t.bundles
    && t.downloading <= t.bundles
    && t.assetLoading <= t.assets
    && Distinct(t.queue)
    && Distinct(t.errors)
    && t.loading !! t.downloading
    && (forall r :: r in t.queue ==>
          && r in t.bundles && r.assetBundleName in t.requests && t.requests[r.assetBundleName] == r
          && r !in t.loading && r !in t.downloading && r !in t.errors)
    && (forall r :: r in t.errors ==> r in t.bundles && r !in t.loading && r !in t.downloading)
  }

  /** A first sighting keeps the collections coherent. */
  lemma CreateCoherent(t: Tables, name: string, r: BL.BundleLoadRequest)
    requires Coherent(t) && name !in t.requests && r !in t.bundles && r.assetBundleName == name
    ensures Coherent(t.(requests := t.requests[name := r], counts := t.counts[name := 0],
                        queue := t.queue + [r], bundles := t.bundles + {r}))
  {
    DistinctSnoc(t.queue, r);
  }

  /** One more dependency walked: the loop's account of the walk so far grows by that dependency's walk. */
  lemma GrownStep(infos: map<string, Info>, rank: map<string, nat>, bound: nat, deps: seq<string>, i: nat,
                  c0: RefCount.Counts, m0: map<string, BL.BundleLoadRequest>, q0: seq<BL.BundleLoadRequest>,
                  c1: RefCount.Counts, m1: map<string, BL.BundleLoadRequest>, q1: seq<BL.BundleLoadRequest>,
                  c2: RefCount.Counts, m2: map<string, BL.BundleLoadRequest>, q2: seq<BL.BundleLoadRequest>)
    requires DependencyWalk.Ranked(infos, rank) && i < |deps| && DependencyWalk.Below(infos, rank, bound, deps[..i + 1])
    requires Grown(c0, m0, q0, c1, m1, q1, DependencyWalk.VisitList(infos, rank, bound, deps[..i]))
    requires Grown(c1, m1, q1, c2, m2, q2, DependencyWalk.VisitOrder(infos, rank, deps[i]))
    ensures Grown(c0, m0, q0, c2, m2, q2, DependencyWalk.VisitList(infos, rank, bound, deps[..i + 1]))
  {
    DependencyWalk.VisitListSnoc(infos, rank, bound, deps[..i + 1], i);
    assert deps[..i + 1][..i] == deps[..i];
    GrownCompose(c0, m0, q0, c1, m1, q1, c2, m2, q2,
      DependencyWalk.VisitList(infos, rank, bound, deps[..i]), DependencyWalk.VisitOrder(infos, rank, deps[i]));
  }

  /** The requests whose names left the map. */
  ghost function DroppedOf(before: map<string, BL.BundleLoadRequest>, after: map<string, BL.BundleLoadRequest>): set<BL.BundleLoadRequest> {
    set n | n in before && n !in after :: before[n]
  }

  /** Over two removals that keep the surviving entries, the dropped requests add up. */
  lemma DroppedCompose(m0: map<string, BL.BundleLoadRequest>, m1: map<string, BL.BundleLoadRequest>, m2: map<string, BL.BundleLoadRequest>)
    requires m1.Keys <= m0.Keys && m2.Keys <= m1.Keys
    requires forall n :: n in m1 ==> m1[n] == m0[n]
    requires forall n :: n in m0 ==> m0[n].assetBundleName == n
    ensures DroppedOf(m0, m2) == DroppedOf(m0, m1) + DroppedOf(m1, m2)
    ensures DroppedOf(m0, m1) !! DroppedOf(m1, m2)
  {
    forall r | r in DroppedOf(m0, m1) ensures r !in DroppedOf(m1, m2) {
      var n :| n in m0 && n !in m1 && m0[n] == r;
      assert r.assetBundleName == n;
    }
  }

  // ----- what the walks and passes do to the request objects -----

  /** The dependency list `Load` sees for `r`: the one `lists` keeps for it, or none. */
  function ListIn(lists: map<BL.BundleLoadRequest, seq<BL.BundleLoadRequest>>, r: BL.BundleLoadRequest): Option<seq<BL.BundleLoadRequest>> {
    if r in lists then Some(lists[r]) else None
  }

  /** The snapshots `s0` after `Dispose` on each request of `d`. */
  ghost function Disposing(s0: map<BL.BundleLoadRequest, BL.Snapshot>, d: set<BL.BundleLoadRequest>): map<BL.BundleLoadRequest, BL.Snapshot> {
    map b | b in s0 :: if b in d then BL.Disposed(s0[b]) else s0[b]
  }

  /**
   * The snapshots `s0` after `Load` with its list on each request of `p`,
   * disposed just before when `retried`.
   */
  ghost function Loading(s0: map<BL.BundleLoadRequest, BL.Snapshot>, p: set<BL.BundleLoadRequest>,
                         lists: map<BL.BundleLoadRequest, seq<BL.BundleLoadRequest>>, retried: bool): map<BL.BundleLoadRequest, BL.Snapshot> {
    map b | b in s0 :: if b in p then BL.Loaded(if retried then BL.Disposed(s0[b]) else s0[b], ListIn(lists, b)) else s0[b]
  }

  /** Disposing nothing changes nothing; loading nothing changes nothing. */
  lemma NothingDone(s0: map<BL.BundleLoadRequest, BL.Snapshot>, lists: map<BL.BundleLoadRequest, seq<BL.BundleLoadRequest>>, retried: bool)
    ensures Disposing(s0, {}) == s0 && Loading(s0, {}, lists, retried) == s0
  {
  }

  /** Two rounds of disposals are one round over both sets, as `Dispose` twice is `Dispose` once. */
  lemma DisposingCompose(s0: map<BL.BundleLoadRequest, BL.Snapshot>, d1: set<BL.BundleLoadRequest>, d2: set<BL.BundleLoadRequest>)
    ensures Disposing(Disposing(s0, d1), d2) == Disposing(s0, d1 + d2)
  {
    forall b | b in s0 ensures Disposing(Disposing(s0, d1), d2)[b] == Disposing(s0, d1 + d2)[b] {
      BL.DisposeIdempotent(s0[b]);
    }
  }

  /** Loading one more request, not loaded yet, extends the set of loaded ones. */
  lemma LoadingSnoc(s0: map<BL.BundleLoadRequest, BL.Snapshot>, p: set<BL.BundleLoadRequest>, r: BL.BundleLoadRequest,
                    lists: map<BL.BundleLoadRequest, seq<BL.BundleLoadRequest>>, retried: bool)
    requires r !in p
    ensures Loading(Loading(s0, p, lists, retried), {r}, lists, retried) == Loading(s0, p + {r}, lists, retried)
  {
  }

  /** Snapshots that differ from `s0` only in `r`, disposed, are `s0` with `r` disposed. */
  lemma DisposingOne(s0: map<BL.BundleLoadRequest, BL.Snapshot>, s1: map<BL.BundleLoadRequest, BL.Snapshot>, r: BL.BundleLoadRequest)
    requires s1.Keys == s0.Keys && r in s0 && s1[r] == BL.Disposed(s0[r])
    requires forall b :: b in s0 && b != r ==> s1[b] == s0[b]
    ensures s1 == Disposing(s0, {r})
  {
  }

  /**
   * Snapshots that differ from `s0` only in `r`, loaded with its list
   * (after `Dispose` when `retried`), are `s0` with `r` loaded.
   */
  lemma LoadingOne(s0: map<BL.BundleLoadRequest, BL.Snapshot>, s1: map<BL.BundleLoadRequest, BL.Snapshot>, r: BL.BundleLoadRequest,
                   lists: map<BL.BundleLoadRequest, seq<BL.BundleLoadRequest>>, retried: bool)
    requires s1.Keys == s0.Keys && r in s0
    requires s1[r] == BL.Loaded(if retried then BL.Disposed(s0[r]) else s0[r], ListIn(lists, r))
    requires forall b :: b in s0 && b != r ==> s1[b] == s0[b]
    ensures s1 == Loading(s0, {r}, lists, retried)
  {
  }

  /** Disposing a request and then loading it is retrying it. */
  lemma RetriedOne(s0: map<BL.BundleLoadRequest, BL.Snapshot>, r: BL.BundleLoadRequest,
                   lists: map<BL.BundleLoadRequest, seq<BL.BundleLoadRequest>>)
    ensures Loading(Disposing(s0, {r}), {r}, lists, false) == Loading(s0, {r}, lists, true)
  {
  }

  /** The requests that removing `name` from `m` drops: its entry, when it has one. */
  lemma DroppedOne(m: map<string, BL.BundleLoadRequest>, name: string)
    ensures DroppedOf(m, m) == {}
    ensures name in m ==> DroppedOf(m, m - {name}) == {m[name]}
  {
  }

  /** The requests a queue without duplicates has lost from its front. */
  lemma FrontTaken<T>(q: seq<T>, i: nat)
    requires Distinct(q) && i <= |q|
    ensures Elems(q[..i]) == Elems(q) - Elems(q[i..])
  {
    forall x | x in Elems(q[..i]) ensures x !in Elems(q[i..]) {
      var j :| 0 <= j < i && q[j] == x;
    }
    assert q == q[..i] + q[i..];
  }

  /** One more request of a queue without duplicates taken from its front. */
  lemma FrontSnoc<T>(q: seq<T>, i: nat)
    requires Distinct(q) && i < |q|
    ensures Elems(q[..i + 1]) == Elems(q[..i]) + {q[i]} && q[i] !in Elems(q[..i])
  {
    assert q[..i + 1] == q[..i] + [q[i]];
  }

  /**
   * The pending queue after RemoveRequestInternal on `n` with the map
   * `requests` and the counts `counts`: rotated past the request when its
   * last reference goes and it is pending, as it was otherwise.
   */
  function QueueAfterRelease(queue: seq<BL.BundleLoadRequest>, requests: map<string, BL.BundleLoadRequest>,
                             counts: RefCount.Counts, n: string): seq<BL.BundleLoadRequest> {
    if n in counts && counts[n] <= 0 && n in requests && requests[n] in queue then RequestQueue.Rotated(queue, requests[n])
    else queue
  }

  /**
   * The pending queue after a release walk along `names`: each name's
   * release applied in turn, with the counts the walk has reached so far.
   * The map entries a walk keeps never change, so `requests` is the map the
   * walk started from.
   */
  function ReleasedQueue(queue: seq<BL.BundleLoadRequest>, requests: map<string, BL.BundleLoadRequest>,
                         counts: RefCount.Counts, names: seq<string>): seq<BL.BundleLoadRequest>
    decreases |names|
  {
    if names == [] then queue
    else ReleasedQueue(QueueAfterRelease(queue, requests, counts, names[0]), requests, RefCount.RemoveOne(counts, names[0]), names[1..])
  }

  /** Release walks along two halves compose, the second starting from the counts the first left. */
  lemma {:induction false} ReleasedQueueConcat(queue: seq<BL.BundleLoadRequest>, requests: map<string, BL.BundleLoadRequest>,
                                               counts: RefCount.Counts, v1: seq<string>, v2: seq<string>)
    ensures ReleasedQueue(queue, requests, counts, v1 + v2)
         == ReleasedQueue(ReleasedQueue(queue, requests, counts, v1), requests, RefCount.RemoveAll(counts, v1), v2)
    decreases |v1|
  {
    if v1 == [] {
      assert v1 + v2 == v2;
    } else {
      assert (v1 + v2)[0] == v1[0] && (v1 + v2)[1..] == v1[1..] + v2;
      ReleasedQueueConcat(QueueAfterRelease(queue, requests, counts, v1[0]), requests, RefCount.RemoveOne(counts, v1[0]), v1[1..], v2);
    }
  }

  /** The queue a release walk leaves depends on the map only through the names that still have counts. */
  lemma {:induction false} ReleasedQueueAgree(queue: seq<BL.BundleLoadRequest>, r1: map<string, BL.BundleLoadRequest>,
                                              r2: map<string, BL.BundleLoadRequest>, counts: RefCount.Counts, names: seq<string>)
    requires forall n :: n in counts ==> n in r1 && n in r2 && r1[n] == r2[n]
    ensures ReleasedQueue(queue, r1, counts, names) == ReleasedQueue(queue, r2, counts, names)
    decreases |names|
  {
    if names != [] {
      assert QueueAfterRelease(queue, r1, counts, names[0]) == QueueAfterRelease(queue, r2, counts, names[0]);
      ReleasedQueueAgree(QueueAfterRelease(queue, r1, counts, names[0]), r1, r2, RefCount.RemoveOne(counts, names[0]), names[1..]);
    }
  }

  /**
   * One release whose request was last pending keeps the order of the rest;
   * otherwise the former last request comes first, and with three or more
   * pending the order differs from plain removal.
   */
  lemma ReleaseOrder(t: Tables, name: string)
    requires Coherent(t) && name in t.requests && t.counts[name] <= 0 && t.requests[name] in t.queue
    ensures var q, r := ReleasedQueue(t.queue, t.requests, t.counts, [name]), t.requests[name];
      && (t.queue[|t.queue| - 1] == r ==> q == Without(t.queue, r))
      && (t.queue[|t.queue| - 1] != r ==> |q| == |t.queue| - 1 && q[0] == t.queue[|t.queue| - 1])
      && (t.queue[|t.queue| - 1] != r && |t.queue| >= 3 ==> q != Without(t.queue, r))
  {
    assert [name][1..] == [];
    RequestQueue.RotationKeepsOthers(t.queue, t.requests[name]);
    RequestQueue.RotationOrder(t.queue, t.requests[name]);
  }

  /**
   * What a release walk along the names `visited` did: the counts are the
   * release fold along the walk; a map entry survives exactly when its count
   * does, and unchanged; the pending queue is the queue fold along the walk
   * (`ReleasedQueue`, rotations included), so the requests whose names left
   * the map are gone from it, and from both active sets, which lose nothing else;
   * the error queue, the live asset requests and the created objects are as
   * they were.
   */
  ghost predicate Shrunk(t0: Tables, t: Tables, visited: seq<string>) {
    && t.counts == RefCount.RemoveAll(t0.counts, visited)
    && t.requests.Keys == t.counts.Keys
    && (forall n :: n in t.requests ==> n in t0.requests && t.requests[n] == t0.requests[n])
    && t.queue == ReleasedQueue(t0.queue, t0.requests, t0.counts, visited)
    && Elems(t.queue) == Elems(t0.queue) - DroppedOf(t0.requests, t.requests)
    && t.loading == t0.loading - DroppedOf(t0.requests, t.requests)
    && t.downloading == t0.downloading - DroppedOf(t0.requests, t.requests)
    && t.errors == t0.errors && t.assetLoading == t0.assetLoading
    && t.bundles == t0.bundles && t.assets == t0.assets
  }

  lemma ShrunkNone(t: Tables)
    requires Coherent(t)
    ensures Shrunk(t, t, [])
  {
    assert DroppedOf(t.requests, t.requests) == {};
  }

  /** Two release walks one after the other are one walk along both. */
  lemma ShrunkCompose(t0: Tables, t1: Tables, t2: Tables, v1: seq<string>, v2: seq<string>)
    requires Coherent(t0) && Shrunk(t0, t1, v1) && Shrunk(t1, t2, v2)
    ensures Shrunk(t0, t2, v1 + v2)
  {
    RefCount.RemoveAllConcat(t0.counts, v1, v2);
    DroppedCompose(t0.requests, t1.requests, t2.requests);
    ReleasedQueueConcat(t0.queue, t0.requests, t0.counts, v1, v2);
    ReleasedQueueAgree(t1.queue, t1.requests, t0.requests, t1.counts, v2);
  }

  /** One more dependency released: the loop's account of the walk so far grows by that dependency's walk. */
  lemma ShrunkStep(infos: map<string, Info>, rank: map<string, nat>, bound: nat, deps: seq<string>, i: nat,
                   t0: Tables, t1: Tables, t2: Tables)
    requires DependencyWalk.Ranked(infos, rank) && i < |deps| && DependencyWalk.Below(infos, rank, bound, deps[..i + 1])
    requires Coherent(t0)
    requires Shrunk(t0, t1, DependencyWalk.VisitList(infos, rank, bound, deps[..i]))
    requires Shrunk(t1, t2, DependencyWalk.VisitOrder(infos, rank, deps[i]))
    ensures Shrunk(t0, t2, DependencyWalk.VisitList(infos, rank, bound, deps[..i + 1]))
  {
    DependencyWalk.VisitListSnoc(infos, rank, bound, deps[..i + 1], i);
    assert deps[..i + 1][..i] == deps[..i];
    ShrunkCompose(t0, t1, t2,
      DependencyWalk.VisitList(infos, rank, bound, deps[..i]), DependencyWalk.VisitOrder(infos, rank, deps[i]));
  }

  /** RemoveRequestInternal on a name without an entry changes nothing. */
  lemma ReleaseAbsent(t: Tables, name: string)
    requires Coherent(t) && name !in t.requests
    ensures Shrunk(t, t, [name])
  {
    assert [name][1..] == [];
    assert DroppedOf(t.requests, t.requests) == {};
  }

  /** RemoveRequestInternal on a request with references left: one reference fewer, and nothing else. */
  lemma ReleaseOne(t: Tables, name: string)
    requires Coherent(t) && name in t.requests && t.counts[name] > 0
    ensures Shrunk(t, t.(counts := t.counts[name := t.counts[name] - 1]), [name])
  {
    assert [name][1..] == [];
    assert RefCount.RemoveAll(t.counts, [name]) == RefCount.RemoveOne(t.counts, name);
    assert ReleasedQueue(t.queue, t.requests, t.counts, [name]) == t.queue;
    assert DroppedOf(t.requests, t.requests) == {};
  }

  /**
   * RemoveRequestInternal on a request without references: its entry and
   * count go, and the request leaves the pending queue (which keeps every
   * other request once) and both active sets; the collections stay coherent.
   */
  lemma DropOne(t: Tables, name: string, r: BL.BundleLoadRequest, queue: seq<BL.BundleLoadRequest>)
    requires Coherent(t) && name in t.requests && t.requests[name] == r && t.counts[name] <= 0 && RefCount.NonNegative(t.counts)
    requires Distinct(queue) && Elems(queue) == Elems(t.queue) - {r}
    requires queue == if r in t.queue then RequestQueue.Rotated(t.queue, r) else t.queue
    ensures Shrunk(t, t.(requests := t.requests - {name}, counts := t.counts - {name}, queue := queue,
                         loading := t.loading - {r}, downloading := t.downloading - {r}), [name])
    ensures Coherent(t.(requests := t.requests - {name}, counts := t.counts - {name}, queue := queue,
                        loading := t.loading - {r}, downloading := t.downloading - {r}))
    ensures RefCount.NonNegative(t.counts - {name})
  {
    var m1 := t.requests - {name};
    assert [name][1..] == [];
    assert DroppedOf(t.requests, m1) == {r};
    forall q | q in queue ensures q in Elems(t.queue) && q != r {
      assert q in Elems(queue);
    }
  }

  /**
   * The round trip: releasing along the walk that added restores the request
   * map and the counts exactly, and the pending queue, the active sets and
   * the error queue as sets; the requests the walk created are the ones the
   * release drops.
   */
  lemma {:induction false} RoundTrip(t0: Tables, t1: Tables, t2: Tables, visited: seq<string>)
    requires Coherent(t0) && Coherent(t1) && RefCount.NonNegative(t0.counts)
    requires Grown(t0.counts, t0.requests, t0.queue, t1.counts, t1.requests, t1.queue, visited)
    requires t1.loading == t0.loading && t1.downloading == t0.downloading && t1.errors == t0.errors
    requires Shrunk(t1, t2, visited)
    ensures t2.requests == t0.requests && t2.counts == t0.counts
    ensures Elems(t2.queue) == Elems(t0.queue)
    ensures t2.loading == t0.loading && t2.downloading == t0.downloading && t2.errors == t0.errors
  {
    RefCount.RoundTrip(t0.counts, visited);
    assert t2.requests.Keys == t0.requests.Keys;
    assert t2.requests == t0.requests;
    var added := t1.queue[|t0.queue|..];
    DroppedAreAdded(t0, t1, t2, visited);
    assert t1.queue == t0.queue + added;
    assert Elems(t1.queue) == Elems(t0.queue) + Elems(added);
  }

  /**
   * The requests a release drops after an add walk that it undoes are the
   * ones the walk enqueued; none of them was pending, loading or
   * downloading before the walk.
   */
  lemma DroppedAreAdded(t0: Tables, t1: Tables, t2: Tables, visited: seq<string>)
    requires Coherent(t0) && Coherent(t1)
    requires Grown(t0.counts, t0.requests, t0.queue, t1.counts, t1.requests, t1.queue, visited)
    requires t1.loading == t0.loading && t1.downloading == t0.downloading
    requires t2.requests.Keys == t0.requests.Keys
    ensures var added := Elems(t1.queue[|t0.queue|..]);
      && DroppedOf(t1.requests, t2.requests) == added
      && added !! Elems(t0.queue) && added !! t0.loading && added !! t0.downloading
  {
    var added := t1.queue[|t0.queue|..];
    var dropped := DroppedOf(t1.requests, t2.requests);
    forall r | r in dropped ensures r in Elems(added) {
      var n :| n in t1.requests && n !in t2.requests && t1.requests[n] == r;
      CreatedAt(t0, t1, visited, n);
    }
    forall r | r in Elems(added) ensures r in dropped {
      AddedIsCreated(t0, t1, visited, r);
    }
    forall r | r in Elems(added) ensures r !in t0.queue && r !in t0.loading && r !in t0.downloading {
      AddedIsCreated(t0, t1, visited, r);
      assert r in t1.queue;
    }
  }

  /** A request the add walk enqueued is the new entry of a name that had none. */
  lemma AddedIsCreated(t0: Tables, t1: Tables, visited: seq<string>, r: BL.BundleLoadRequest)
    requires Coherent(t1)
    requires Grown(t0.counts, t0.requests, t0.queue, t1.counts, t1.requests, t1.queue, visited)
    requires r in t1.queue[|t0.queue|..]
    ensures r.assetBundleName !in t0.requests && r.assetBundleName in t1.requests
    ensures t1.requests[r.assetBundleName] == r
  {
    var added := t1.queue[|t0.queue|..];
    var j :| 0 <= j < |added| && added[j] == r;
    assert Names(added)[j] == r.assetBundleName;
    RefCount.CreatedMembers(t0.requests.Keys, visited, r.assetBundleName);
    assert t1.queue[|t0.queue| + j] == r;
  }

  /** A name the add walk created holds a request that the walk enqueued. */
  lemma CreatedAt(t0: Tables, t1: Tables, visited: seq<string>, n: string)
    requires Coherent(t1)
    requires Grown(t0.counts, t0.requests, t0.queue, t1.counts, t1.requests, t1.queue, visited)
    requires n in t1.requests && n !in t0.requests
    ensures t1.requests[n] in t1.queue[|t0.queue|..]
  {
    var added := t1.queue[|t0.queue|..];
    RefCount.CreatedMembers(t0.requests.Keys, visited, n);
    assert n in Names(added);
    var j :| 0 <= j < |added| && Names(added)[j] == n;
    assert added[j] == t1.queue[|t0.queue| + j];
  }

  // ----- the active sets -----

  /**
   * AddLoadingRequest's effect: nothing for a request already active;
   * otherwise it joins the loading set when its version is cached, and the
   * downloading set when not.
   */
  predicate Activated(l0: set<BL.BundleLoadRequest>, d0: set<BL.BundleLoadRequest>,
                      l: set<BL.BundleLoadRequest>, d: set<BL.BundleLoadRequest>,
                      r: BL.BundleLoadRequest, cachedVersion: bool) {
    if r in l0 || r in d0 then l == l0 && d == d0
    else if cachedVersion then l == l0 + {r} && d == d0
    else l == l0 && d == d0 + {r}
  }

  /** A request that is neither pending nor failed may join an active set: the collections stay coherent. */
  lemma ActivateCoherent(t: Tables, r: BL.BundleLoadRequest, l: set<BL.BundleLoadRequest>, d: set<BL.BundleLoadRequest>, cachedVersion: bool)
    requires Coherent(t) && r in t.bundles && r !in t.queue && r !in t.errors
    requires Activated(t.loading, t.downloading, l, d, r, cachedVersion)
    ensures Coherent(t.(loading := l, downloading := d))
  {
  }

  /** Taking the front off the pending queue keeps the collections coherent; the request taken is in no other one. */
  lemma DequeueCoherent(t: Tables)
    requires Coherent(t) && t.queue != []
    ensures Coherent(t.(queue := t.queue[1..]))
    ensures var r := t.queue[0];
      r in t.bundles && r !in t.queue[1..] && r !in t.errors && r !in t.loading && r !in t.downloading
  {
    DistinctTail(t.queue);
  }

  /** Taking the front off the error queue keeps the collections coherent; the request taken is in no other one. */
  lemma DequeueErrorCoherent(t: Tables)
    requires Coherent(t) && t.errors != []
    ensures Coherent(t.(errors := t.errors[1..]))
    ensures var r := t.errors[0];
      r in t.bundles && r !in t.errors[1..] && r !in t.queue && r !in t.loading && r !in t.downloading
  {
    DistinctTail(t.errors);
  }

  lemma DistinctTail<T>(s: seq<T>)
    requires Distinct(s) && s != []
    ensures Distinct(s[1..]) && s[0] !in s[1..]
  {
    var tail := s[1..];
    forall i, j | 0 <= i < j < |tail| ensures tail[i] != tail[j] {
      assert tail[i] == s[i + 1] && tail[j] == s[j + 1];
    }
    forall i | 0 <= i < |tail| ensures tail[i] != s[0] {
      assert tail[i] == s[i + 1];
    }
  }

  /** The cache test AddLoadingRequest applies: ready, and the version cached under the bundle name and hash. */
  predicate CachedVersion(ready: bool, cached: (string, Hash128) -> bool, r: BL.BundleLoadRequest) {
    ready && cached(r.assetBundleName, r.hash)
  }

  /** The requests of `q` whose cache test comes out as `want`. */
  ghost function Split(q: seq<BL.BundleLoadRequest>, ready: bool, cached: (string, Hash128) -> bool, want: bool): set<BL.BundleLoadRequest> {
    set r | r in q && CachedVersion(ready, cached, r) == want
  }

  /** Extending the prefix by one request adds it to the side its cache test picks. */
  lemma SplitSnoc(q: seq<BL.BundleLoadRequest>, i: nat, ready: bool, cached: (string, Hash128) -> bool, want: bool)
    requires i < |q|
    ensures Split(q[..i + 1], ready, cached, want)
         == Split(q[..i], ready, cached, want) + (if CachedVersion(ready, cached, q[i]) == want then {q[i]} else {})
  {
    assert q[..i + 1] == q[..i] + [q[i]];
  }

  /**
   * One more request of `q` made active: the active sets grow by it, on the
   * side its cache test picks.
   */
  lemma ActivateStep(q: seq<BL.BundleLoadRequest>, i: nat, ready: bool, cached: (string, Hash128) -> bool,
                     l0: set<BL.BundleLoadRequest>, d0: set<BL.BundleLoadRequest>,
                     l1: set<BL.BundleLoadRequest>, d1: set<BL.BundleLoadRequest>,
                     l2: set<BL.BundleLoadRequest>, d2: set<BL.BundleLoadRequest>)
    requires i < |q|
    requires l1 == l0 + Split(q[..i], ready, cached, true) && d1 == d0 + Split(q[..i], ready, cached, false)
    requires q[i] !in l1 && q[i] !in d1
    requires Activated(l1, d1, l2, d2, q[i], CachedVersion(ready, cached, q[i]))
    ensures l2 == l0 + Split(q[..i + 1], ready, cached, true) && d2 == d0 + Split(q[..i + 1], ready, cached, false)
  {
    SplitSnoc(q, i, ready, cached, true);
    SplitSnoc(q, i, ready, cached, false);
  }

  /** The active sets are the initial ones plus the first `i` requests of `q`, each on the side its cache test picks. */
  ghost predicate Promoted(q: seq<BL.BundleLoadRequest>, i: nat, ready: bool, cached: (string, Hash128) -> bool,
                           l0: set<BL.BundleLoadRequest>, d0: set<BL.BundleLoadRequest>,
                           l: set<BL.BundleLoadRequest>, d: set<BL.BundleLoadRequest>) {
    i <= |q| && l == l0 + Split(q[..i], ready, cached, true) && d == d0 + Split(q[..i], ready, cached, false)
  }

  lemma PromotedNone(q: seq<BL.BundleLoadRequest>, ready: bool, cached: (string, Hash128) -> bool,
                     l0: set<BL.BundleLoadRequest>, d0: set<BL.BundleLoadRequest>)
    ensures Promoted(q, 0, ready, cached, l0, d0, l0, d0)
  {
    assert q[..0] == [];
  }

  lemma PromotedStep(q: seq<BL.BundleLoadRequest>, i: nat, ready: bool, cached: (string, Hash128) -> bool,
                     l0: set<BL.BundleLoadRequest>, d0: set<BL.BundleLoadRequest>,
                     l1: set<BL.BundleLoadRequest>, d1: set<BL.BundleLoadRequest>,
                     l2: set<BL.BundleLoadRequest>, d2: set<BL.BundleLoadRequest>)
    requires i < |q| && Promoted(q, i, ready, cached, l0, d0, l1, d1)
    requires q[i] !in l1 && q[i] !in d1
    requires Activated(l1, d1, l2, d2, q[i], CachedVersion(ready, cached, q[i]))
    ensures Promoted(q, i + 1, ready, cached, l0, d0, l2, d2)
    ensures |l2| + |d2| == |l1| + |d1| + 1
  {
    ActivateStep(q, i, ready, cached, l0, d0, l1, d1, l2, d2);
    ActivateCount(l1, d1, l2, d2, q[i], CachedVersion(ready, cached, q[i]));
  }

  /** A request that was not active before adds exactly one to the number of active requests. */
  lemma ActivateCount(l1: set<BL.BundleLoadRequest>, d1: set<BL.BundleLoadRequest>,
                      l2: set<BL.BundleLoadRequest>, d2: set<BL.BundleLoadRequest>,
                      r: BL.BundleLoadRequest, cachedVersion: bool)
    requires r !in l1 && r !in d1
    requires Activated(l1, d1, l2, d2, r, cachedVersion)
    ensures |l2| + |d2| == |l1| + |d1| + 1
  {
    if cachedVersion {
      assert l2 == l1 + {r};
    } else {
      assert d2 == d1 + {r};
    }
  }

  /**
   * How many requests one promotion pass moves: none when the active
   * requests already reach the limit, otherwise as many as are pending, up
   * to the free places under the limit.
   */
  function PromotionCount(active: nat, pending: nat, limit: int): (k: nat)
    ensures k <= pending
    ensures k < pending ==> active + k >= limit
    ensures k > 0 ==> active + k <= limit
  {
    if active >= limit then 0 else if pending <= limit - active then pending else limit - active
  }

  /** A count that meets the three bounds of PromotionCount is PromotionCount. */
  lemma PromotionCountOf(active: nat, pending: nat, limit: int, k: nat)
    requires k <= pending
    requires k < pending ==> active + k >= limit
    requires k > 0 ==> active + k <= limit
    ensures k == PromotionCount(active, pending, limit)
  {
  }

  /**
   * What a promotion pass from queue `q0` and active sets `l0`, `d0` leaves:
   * the first PromotionCount requests are taken from the queue and each has
   * joined the active set its cache test picks.
   */
  ghost predicate PassDone(q0: seq<BL.BundleLoadRequest>, l0: set<BL.BundleLoadRequest>, d0: set<BL.BundleLoadRequest>, limit: int,
                           ready: bool, cached: (string, Hash128) -> bool,
                           q: seq<BL.BundleLoadRequest>, l: set<BL.BundleLoadRequest>, d: set<BL.BundleLoadRequest>) {
    var k := PromotionCount(|l0| + |d0|, |q0|, limit);
    q == q0[k..] && Promoted(q0, k, ready, cached, l0, d0, l, d)
  }

  /**
   * The count kept by a promotion pass: `i` requests promoted so far, each
   * adding one to the active sets, and none promoted past the limit.
   */
  ghost predicate Counted(l0: set<BL.BundleLoadRequest>, d0: set<BL.BundleLoadRequest>,
                          l: set<BL.BundleLoadRequest>, d: set<BL.BundleLoadRequest>, i: nat, limit: int) {
    |l| + |d| == |l0| + |d0| + i && (i > 0 ==> |l0| + |d0| + i <= limit)
  }

  lemma CountedNone(l0: set<BL.BundleLoadRequest>, d0: set<BL.BundleLoadRequest>, limit: int)
    ensures Counted(l0, d0, l0, d0, 0, limit)
  {
  }

  lemma CountedStep(l0: set<BL.BundleLoadRequest>, d0: set<BL.BundleLoadRequest>,
                    l1: set<BL.BundleLoadRequest>, d1: set<BL.BundleLoadRequest>,
                    l2: set<BL.BundleLoadRequest>, d2: set<BL.BundleLoadRequest>, i: nat, limit: int)
    requires Counted(l0, d0, l1, d1, i, limit) && |d1| + |l1| < limit
    requires |l2| + |d2| == |l1| + |d1| + 1
    ensures Counted(l0, d0, l2, d2, i + 1, limit)
  {
  }

  /**
   * A promotion pass that stopped after `i` requests, at the end of the
   * queue or at the limit, promoted PromotionCount of them.
   */
  lemma PromotionEnds(q0: seq<BL.BundleLoadRequest>, i: nat, ready: bool, cached: (string, Hash128) -> bool,
                      l0: set<BL.BundleLoadRequest>, d0: set<BL.BundleLoadRequest>,
                      l: set<BL.BundleLoadRequest>, d: set<BL.BundleLoadRequest>, q: seq<BL.BundleLoadRequest>, limit: int)
    requires i <= |q0| && q == q0[i..] && Promoted(q0, i, ready, cached, l0, d0, l, d)
    requires Counted(l0, d0, l, d, i, limit)
    requires q == [] || |d| + |l| >= limit
    ensures PassDone(q0, l0, d0, limit, ready, cached, q, l, d)
  {
    assert i < |q0| ==> |q0[i..]| > 0;
    PromotionCountOf(|l0| + |d0|, |q0|, limit, i);
  }

  /** A pass that emptied its queue promoted all of it. */
  lemma PromotedAll(q0: seq<BL.BundleLoadRequest>, i: nat, ready: bool, cached: (string, Hash128) -> bool,
                    l0: set<BL.BundleLoadRequest>, d0: set<BL.BundleLoadRequest>,
                    l: set<BL.BundleLoadRequest>, d: set<BL.BundleLoadRequest>)
    requires i <= |q0| && q0[i..] == [] && Promoted(q0, i, ready, cached, l0, d0, l, d)
    ensures Promoted(q0, |q0|, ready, cached, l0, d0, l, d)
  {
    assert |q0[i..]| == |q0| - i;
  }

  /** The total size of a set of requests. */
  ghost function SizeOf(s: set<BL.BundleLoadRequest>): nat {
    if s == {} then 0 else var r :| r in s; r.size + SizeOf(s - {r})
  }

  /** The total does not depend on which request is taken first. */
  lemma {:induction false} SizeOfRemove(s: set<BL.BundleLoadRequest>, x: BL.BundleLoadRequest)
    requires x in s
    ensures SizeOf(s) == x.size + SizeOf(s - {x})
    decreases |s|
  {
    var r :| r in s && SizeOf(s) == r.size + SizeOf(s - {r});
    if r != x {
      SizeOfRemove(s - {r}, x);
      SizeOfRemove(s - {x}, r);
      assert s - {r} - {x} == s - {x} - {r};
    }
  }

  /** The total size of a queue of requests. */
  function QueueSize(q: seq<BL.BundleLoadRequest>): nat {
    if q == [] then 0 else q[0].size + QueueSize(q[1..])
  }

  // ----- the bundle tick -----

  lemma DistinctAppend<T>(a: seq<T>, b: seq<T>)
    requires Distinct(a) && Distinct(b) && forall x :: x in a ==> x !in b
    ensures Distinct(a + b)
  {
    forall i, j | 0 <= i < j < |a + b| ensures (a + b)[i] != (a + b)[j] {
      if j < |a| {
        assert (a + b)[i] == a[i] && (a + b)[j] == a[j];
      } else if i >= |a| {
        assert (a + b)[i] == b[i - |a|] && (a + b)[j] == b[j - |a|];
      } else {
        assert (a + b)[i] == a[i] && (a + b)[j] == b[j - |a|];
        assert a[i] in a && a[i] !in b && b[j - |a|] in b;
      }
    }
  }

  /**
   * The end of a bundle tick keeps the collections coherent: active
   * requests that ended leave the active sets, and some of them, each once,
   * join the error queue.
   */
  lemma SettleCoherent(t: Tables, finished: set<BL.BundleLoadRequest>, failed: seq<BL.BundleLoadRequest>)
    requires Coherent(t) && finished <= t.loading + t.downloading
    requires Distinct(failed) && Elems(failed) <= finished
    ensures Coherent(t.(loading := t.loading - finished, downloading := t.downloading - finished, errors := t.errors + failed))
  {
    forall r | r in failed ensures r in finished && r !in t.errors {
      assert r in Elems(failed);
    }
    DistinctAppend(t.errors, failed);
  }

  lemma ModAdd(a: nat, b: nat)
    ensures (a % ULongModulus + b) % ULongModulus == (a + b) % ULongModulus
  {
  }

  // ----- the live asset requests and the reset -----

  /** A new asset request joining the live set keeps the collections coherent. */
  lemma TrackCoherent(t: Tables, a: AL.AssetLoadRequest)
    requires Coherent(t)
    ensures Coherent(t.(assetLoading := t.assetLoading + {a}, assets := t.assets + {a}))
  {
  }

  /** The live set losing requests keeps the collections coherent. */
  lemma UntrackCoherent(t: Tables, gone: set<AL.AssetLoadRequest>)
    requires Coherent(t)
    ensures Coherent(t.(assetLoading := t.assetLoading - gone))
  {
  }

  /**
   * Emptying the live set, both queues and the loading set keeps the
   * collections coherent, and so does emptying the map after them, with or
   * without emptying the downloading set.
   */
  lemma ClearedCoherent(t: Tables)
    requires Coherent(t)
    ensures Coherent(t.(assetLoading := {}, queue := [], errors := [], loading := {}))
    ensures Coherent(t.(assetLoading := {}, queue := [], errors := [], loading := {}, requests := map[], counts := map[]))
    ensures Coherent(t.(assetLoading := {}, queue := [], errors := [], loading := {}, downloading := {}, requests := map[], counts := map[]))
  {
  }

  /**
   * The loading set, the pending queue and the error queue share no
   * request and repeat none, so the sum of their sizes counts requests.
   */
  lemma {:induction false} CountedRequests(t: Tables)
    requires Coherent(t)
    ensures |t.loading + Elems(t.queue) + Elems(t.errors)| == |t.loading| + |t.queue| + |t.errors|
  {
    DistinctCard(t.queue);
    DistinctCard(t.errors);
    assert t.loading * Elems(t.queue) == {} by {
      forall r | r in Elems(t.queue) ensures r !in t.loading {
        assert r in t.queue;
      }
    }
    assert (t.loading + Elems(t.queue)) * Elems(t.errors) == {} by {
      forall r | r in Elems(t.errors) ensures r !in t.loading && r !in Elems(t.queue) {
        assert r in t.errors;
        assert r !in t.queue;
      }
    }
  }

  // ----- the size total -----

  /** `total += request.size` over a set of requests, in whatever order it yields them, with 64-bit wrap-around. */
  method SumSizes(s: set<BL.BundleLoadRequest>, total0: nat) returns (total: nat)
    requires total0 < ULongModulus
    ensures total == (total0 + SizeOf(s)) % ULongModulus
  {
    total := total0;
    var rest := s;
    ghost var acc: nat := total0;
    while rest != {}
      invariant rest <= s && total == acc % ULongModulus
      invariant acc + SizeOf(rest) == total0 + SizeOf(s)
      decreases |rest|
    {
      var r :| r in rest;
      SizeOfRemove(rest, r);
      ModAdd(acc, r.size);
      total := (total + r.size) % ULongModulus;
      acc := acc + r.size;
      rest := rest - {r};
    }
  }

  /** `total += request.size` over a queue of requests, front to back, with 64-bit wrap-around. */
  method SumQueue(q: seq<BL.BundleLoadRequest>, total0: nat) returns (total: nat)
    requires total0 < ULongModulus
    ensures total == (total0 + QueueSize(q)) % ULongModulus
  {
    total := total0;
    ghost var acc: nat := total0;
    var i := 0;
    while i < |q|
      invariant 0 <= i <= |q| && total == acc % ULongModulus
      invariant acc + QueueSize(q[i..]) == total0 + QueueSize(q)
    {
      assert q[i..][1..] == q[i + 1..];
      ModAdd(acc, q[i].size);
      total := (total + q[i].size) % ULongModulus;
      acc := acc + q[i].size;
      i := i + 1;
    }
  }
}
