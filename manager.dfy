/**
 * AssetBundleManager: the tick-driven scheduler over bundle requests.
 *
 * It holds a FIFO pending queue, two disjoint active sets (requests
 * downloading and requests loading from the cache), an error queue, a
 * name-to-request map whose entries carry reference counts, the live asset
 * requests and the cache of loaded assets.
 *
 * The one instance the static members reach is the object itself; the
 * engine is replaced by parameters: `now` for `Time.time`, `poll` for what a
 * tick reads from each request's web request, `extract` for each asset
 * extraction and `cached` for `Caching.IsVersionCached`. The outcome of the
 * manifest loading coroutine is the `ready` flag and the info map given at
 * construction.
 */
module Manager {
  import opened Common
  import opened BundleInfo
  import ManifestParser
  import BL = BundleLoad
  import AL = AssetLoad
  import RequestQueue
  import RefCount
  import DependencyWalk
  import opened ManagerState

  /** The serialized settings. */
  datatype Config = Config(timeoutRetryLimit: int, timeoutSeconds: real, loadRequestMaxCount: int, loadRequestMaxBytes: int)

  /** The defaults: 3 retries, 20 seconds, 35 active requests, 10 MiB (the byte cap is never consulted). */
  const DefaultConfig: Config := Config(3, 20.0, 35, 10 * 1024 * 1024)

  /**
   * What `AddRequest<T>` did (the C# method returns nothing): not ready, no
   * bundle name, asset already loaded, a request registered whose bundle is
   * not in the info map (the walk throws KeyNotFoundException after the
   * request joined the live set), or a request registered and attached.
   */
  datatype AddOutcome =
    | NotReady
    | NoBundleName
    | AlreadyLoaded
    | UnknownBundle(request: AL.AssetLoadRequest)
    | Added(request: AL.AssetLoadRequest)

  /** The state of the request an outcome holds (any state when it holds none). */
  ghost function SnapOf(outcome: AddOutcome): AL.Snapshot
    reads if outcome.UnknownBundle? || outcome.Added? then {outcome.request} else {}
  {
    if outcome.UnknownBundle? || outcome.Added? then outcome.request.Snap() else AL.Snapshot(AL.Idle, null, None, None)
  }

  /**
   * A batch add over `n` names: one outcome per name up to and including
   * the first UnknownBundle, whose exception ends the batch, and one per
   * name when there is none.
   */
  predicate UpToThrow(outcomes: seq<AddOutcome>, n: nat) {
    && |outcomes| <= n
    && (forall i :: 0 <= i < |outcomes| - 1 ==> !outcomes[i].UnknownBundle?)
    && (|outcomes| < n ==> |outcomes| > 0 && outcomes[|outcomes| - 1].UnknownBundle?)
  }

  /** The set an asset tick stores: a finished request that holds an asset. */
  predicate Yields(a: AL.AssetLoadRequest)
    reads a
  {
    a.state == AL.Done && a.asset.Some?
  }

  /** The cache key of an asset request (its asset name). */
  function AssetKey(a: AL.AssetLoadRequest): string {
    if a.assetName.Some? then a.assetName.value else ""
  }

  /** What one tick did to a bundle request: its state machine stepped once, on that request's poll. */
  ghost predicate Ticked(r: BL.BundleLoadRequest, s0: BL.Snapshot, poll: BL.BundleLoadRequest -> BL.Poll, now: real, limits: BL.Limits)
    reads r
  {
    r.Snap() == BL.Step(r.assetBundleName, r.Fetch(), s0, poll(r), now, limits)
  }

  /** A request a tick takes out of the active sets: Done or Error. */
  predicate Ended(r: BL.BundleLoadRequest)
    reads r
  {
    EndedIn(r.Snap())
  }

  /** Ended, on a request's state. */
  predicate EndedIn(s: BL.Snapshot) {
    s.state == BL.Done || s.state == BL.Error
  }

  /**
   * What the first loop of a tick has gathered about the requests `done`
   * it has ticked: `finished` holds exactly the ones that ended and
   * `failed` exactly the failed ones, each once.
   */
  ghost predicate Classified(done: set<BL.BundleLoadRequest>, finished: set<BL.BundleLoadRequest>, failed: seq<BL.BundleLoadRequest>)
    reads done
  {
    && finished <= done && (forall r :: r in done ==> (r in finished <==> Ended(r)))
    && Distinct(failed) && Elems(failed) <= done && (forall r :: r in done ==> (r in failed <==> r.state == BL.Error))
  }

  lemma ClassifiedStep(done: set<BL.BundleLoadRequest>, finished: set<BL.BundleLoadRequest>, failed: seq<BL.BundleLoadRequest>,
                       r: BL.BundleLoadRequest)
    requires Classified(done, finished, failed) && r !in done
    ensures Classified(done + {r}, if Ended(r) then finished + {r} else finished,
                       if r.state == BL.Error then failed + [r] else failed)
  {
    if r.state == BL.Error {
      assert r !in Elems(failed);
      DistinctSnoc(failed, r);
    }
  }

  /**
   * The first loop of a bundle tick over one active set: each request
   * ticked once, in whatever order the set yields them; the ones that
   * ended, and the failed ones in the order they were ticked.
   */
  method TickAll(s: set<BL.BundleLoadRequest>, poll: BL.BundleLoadRequest -> BL.Poll, now: real, limits: BL.Limits)
    returns (finished: set<BL.BundleLoadRequest>, failed: seq<BL.BundleLoadRequest>)
    requires forall r :: r in s ==> r.Valid()
    modifies s
    ensures forall r :: r in s ==> r.Valid() && Ticked(r, old(r.Snap()), poll, now, limits)
    ensures Classified(s, finished, failed)
  {
    var order := TickEach(s, poll, now, limits);
    finished, failed := File(order);
  }

  /** `request.Update()` on each request of `s`, in the order the set yields them; that order. */
  method TickEach(s: set<BL.BundleLoadRequest>, poll: BL.BundleLoadRequest -> BL.Poll, now: real, limits: BL.Limits)
    returns (order: seq<BL.BundleLoadRequest>)
    requires forall r :: r in s ==> r.Valid()
    modifies s
    ensures forall r :: r in s ==> r.Valid() && Ticked(r, old(r.Snap()), poll, now, limits)
    ensures Distinct(order) && Elems(order) == s
  {
    var rest := s;
    order := [];
    while rest != {}
      invariant rest <= s
      invariant forall r :: r in s ==> r.Valid()
      invariant forall r :: r in rest ==> r.Snap() == old(r.Snap())
      invariant forall r :: r in s && r !in rest ==> Ticked(r, old(r.Snap()), poll, now, limits)
      invariant Distinct(order) && Elems(order) == s - rest
      decreases |rest|
    {
      var r: BL.BundleLoadRequest :| r in rest;
      r.Update(poll(r), now, limits);
      DistinctSnoc(order, r);
      TakeOne(s, rest, order, r);
      order := order + [r];
      rest := rest - {r};
    }
  }

  /** Taking `r` out of the requests still to go and recording it after the ones taken so far. */
  lemma TakeOne<T>(s: set<T>, rest: set<T>, order: seq<T>, r: T)
    requires rest <= s && r in rest && Elems(order) == s - rest
    ensures Elems(order + [r]) == s - (rest - {r})
  {
    assert Elems(order + [r]) == Elems(order) + {r};
  }

  /**
   * The filing half of the loop: in the order of ticking, a request that is
   * Done is marked finished, one in Error finished and failed. A request is
   * never ticked after it is filed, so filing after the whole set is
   * ticked sees the same states as filing after each tick.
   */
  method File(order: seq<BL.BundleLoadRequest>) returns (finished: set<BL.BundleLoadRequest>, failed: seq<BL.BundleLoadRequest>)
    requires Distinct(order) && forall r :: r in order ==> r.Valid()
    ensures Classified(Elems(order), finished, failed)
  {
    finished, failed := {}, [];
    var i := 0;
    while i < |order|
      invariant 0 <= i <= |order|
      invariant Classified(Elems(order[..i]), finished, failed)
    {
      var r := order[i];
      assert Elems(order[..i + 1]) == Elems(order[..i]) + {r} by { assert order[..i + 1] == order[..i] + [r]; }
      ClassifiedStep(Elems(order[..i]), finished, failed, r);
      if r.IsDone() {
        finished := finished + {r};
      } else if r.IsError() {
        finished := finished + {r};
        failed := failed + [r];
      }
      i := i + 1;
    }
    assert order[..i] == order;
  }

  /**
   * How a bundle tick extends the error queue `e0` to `e`: the requests
   * added are exactly the failed ones of the downloading set `d` and the
   * loading set `l`, each once, those of `d` first.
   */
  ghost predicate FailuresQueued(e0: seq<BL.BundleLoadRequest>, e: seq<BL.BundleLoadRequest>,
                                 d: set<BL.BundleLoadRequest>, l: set<BL.BundleLoadRequest>)
    reads d, l
  {
    && |e0| <= |e| && e[..|e0|] == e0
    && Distinct(e[|e0|..])
    && (forall r :: r in e[|e0|..] ==> r in d || r in l)
    && (forall r :: r in d ==> (r in e[|e0|..] <==> r.state == BL.Error))
    && (forall r :: r in l ==> (r in e[|e0|..] <==> r.state == BL.Error))
    && (forall i, j :: |e0| <= i < j < |e| && e[j] in d ==> e[i] in d)
  }

  /** FailuresQueued, with the requests' states read from `m`. */
  ghost predicate FailuresQueuedIn(e0: seq<BL.BundleLoadRequest>, e: seq<BL.BundleLoadRequest>,
                                   d: set<BL.BundleLoadRequest>, l: set<BL.BundleLoadRequest>,
                                   m: map<BL.BundleLoadRequest, BL.Snapshot>)
  {
    && |e0| <= |e| && e[..|e0|] == e0
    && Distinct(e[|e0|..])
    && (forall r :: r in e[|e0|..] ==> r in d || r in l)
    && (forall r :: r in d ==> r in m && (r in e[|e0|..] <==> m[r].state == BL.Error))
    && (forall r :: r in l ==> r in m && (r in e[|e0|..] <==> m[r].state == BL.Error))
    && (forall i, j :: |e0| <= i < j < |e| && e[j] in d ==> e[i] in d)
  }

  /** FailuresQueued on the requests as they are is FailuresQueuedIn on their states. */
  lemma FailuresQueuedSnaps(e0: seq<BL.BundleLoadRequest>, e: seq<BL.BundleLoadRequest>,
                            d: set<BL.BundleLoadRequest>, l: set<BL.BundleLoadRequest>,
                            m: map<BL.BundleLoadRequest, BL.Snapshot>)
    requires FailuresQueued(e0, e, d, l)
    requires forall r :: r in d || r in l ==> r in m && m[r] == r.Snap()
    ensures FailuresQueuedIn(e0, e, d, l, m)
  {
  }

  /** The error queue a tick builds from the failures of the downloading set, then of the loading set. */
  lemma FailuresQueuedOf(e0: seq<BL.BundleLoadRequest>, fd: seq<BL.BundleLoadRequest>, fl: seq<BL.BundleLoadRequest>,
                         endD: set<BL.BundleLoadRequest>, endL: set<BL.BundleLoadRequest>,
                         d: set<BL.BundleLoadRequest>, l: set<BL.BundleLoadRequest>)
    requires d !! l && Classified(d, endD, fd) && Classified(l, endL, fl)
    ensures FailuresQueued(e0, e0 + (fd + fl), d, l)
  {
    var e := e0 + (fd + fl);
    assert e[..|e0|] == e0;
    assert e[|e0|..] == fd + fl;
    forall r | r in fd ensures r !in fl {
      assert r in Elems(fd);
    }
    DistinctAppend(fd, fl);
    forall r | r in fd + fl ensures r in d || r in l {
      assert r in fd || r in fl;
      assert r in Elems(fd) || r in Elems(fl);
    }
    forall i, j | |e0| <= i < j < |e| && e[j] in d ensures e[i] in d {
      if j - |e0| >= |fd| {
        assert false;
      }
      assert e[i] == fd[i - |e0|] && e[i] in Elems(fd);
    }
  }

  // ----- the asset tick -----

  /** What one tick did to an asset request: its state machine stepped once, on its bundle request and its extraction. */
  ghost predicate AssetTicked(a: AL.AssetLoadRequest, s0: AL.Snapshot, ext: AL.AssetLoadRequest -> AL.Extraction)
    reads a, a.bundleRequest
  {
    var b := if a.bundleRequest != null then a.bundleRequest.Snap() else BL.Initial;
    BL.Consistent(b) && a.Snap() == AL.Step(a.assetName, a.subAssetName, s0, b, ext(a))
  }

  /** The cache keys the requests of `s` that are done and hold an asset store. */
  ghost function YieldKeys(s: set<AL.AssetLoadRequest>): set<string>
    reads s
  {
    set a | a in s && Yields(a) :: AssetKey(a)
  }

  /**
   * `_loadedAssets.Add` succeeds for every request of `s` that yields an
   * asset: no key is in `cache` yet and no two of them share one.
   */
  ghost predicate KeysFresh(s: set<AL.AssetLoadRequest>, cache: map<string, Asset>)
    reads s
  {
    && (forall a :: a in s && Yields(a) ==> AssetKey(a) !in cache)
    && (forall a, b :: a in s && b in s && Yields(a) && Yields(b) && AssetKey(a) == AssetKey(b) ==> a == b)
  }

  /** `cache` is `cache0` with the asset of each request of `done` that yields one added under its key. */
  ghost predicate Cached(done: set<AL.AssetLoadRequest>, cache0: map<string, Asset>, cache: map<string, Asset>)
    reads done
  {
    && (forall k :: k in cache0 ==> k in cache && cache[k] == cache0[k])
    && cache.Keys == cache0.Keys + YieldKeys(done)
    && (forall a :: a in done && Yields(a) ==> cache[AssetKey(a)] == a.asset.value)
  }

  /**
   * Where an asset tick stands after the requests `done`: none has clashed,
   * their assets are cached, and `finished` holds exactly the Done ones.
   */
  ghost predicate Stored(done: set<AL.AssetLoadRequest>, cache0: map<string, Asset>, cache: map<string, Asset>,
                         finished: set<AL.AssetLoadRequest>)
    reads done
  {
    && finished <= done && (forall a :: a in done ==> (a in finished <==> a.state == AL.Done))
    && KeysFresh(done, cache0)
    && Cached(done, cache0, cache)
  }

  lemma StoredNone(cache0: map<string, Asset>)
    ensures Stored({}, cache0, cache0, {})
  {
    assert YieldKeys({}) == {};
  }

  /** A request that yields nothing leaves the cache as it is. */
  lemma StoredSkip(done: set<AL.AssetLoadRequest>, cache0: map<string, Asset>, cache: map<string, Asset>,
                   finished: set<AL.AssetLoadRequest>, a: AL.AssetLoadRequest)
    requires Stored(done, cache0, cache, finished) && a !in done && !Yields(a)
    ensures Stored(done + {a}, cache0, cache, if a.state == AL.Done then finished + {a} else finished)
  {
    assert YieldKeys(done + {a}) == YieldKeys(done);
  }

  /** A request that yields an asset under a key not cached yet adds it. */
  lemma StoredAdd(done: set<AL.AssetLoadRequest>, cache0: map<string, Asset>, cache: map<string, Asset>,
                  finished: set<AL.AssetLoadRequest>, a: AL.AssetLoadRequest)
    requires Stored(done, cache0, cache, finished) && a !in done && Yields(a) && AssetKey(a) !in cache
    ensures Stored(done + {a}, cache0, cache[AssetKey(a) := a.asset.value], finished + {a})
  {
    assert YieldKeys(done + {a}) == YieldKeys(done) + {AssetKey(a)};
  }

  /** A request that yields an asset under a key already cached makes the keys of the tick clash. */
  lemma StoredClash(done: set<AL.AssetLoadRequest>, cache0: map<string, Asset>, cache: map<string, Asset>,
                    finished: set<AL.AssetLoadRequest>, a: AL.AssetLoadRequest)
    requires Stored(done, cache0, cache, finished) && a !in done && Yields(a) && AssetKey(a) in cache
    ensures !KeysFresh(done + {a}, cache0)
  {
    if AssetKey(a) !in cache0 {
      assert AssetKey(a) in YieldKeys(done);
      var b :| b in done && Yields(b) && AssetKey(b) == AssetKey(a);
      assert b != a;
    }
  }

  /** A clash among some of the requests is a clash among all of them. */
  lemma ClashWidens(p: set<AL.AssetLoadRequest>, s: set<AL.AssetLoadRequest>, cache: map<string, Asset>)
    requires p <= s && !KeysFresh(p, cache)
    ensures !KeysFresh(s, cache)
  {
  }

  /** Moving `r` from the requests still to go to the ones done. */
  lemma Moved<T>(s: set<T>, rest: set<T>, done: set<T>, r: T)
    requires rest <= s && done == s - rest && r in rest
    ensures done + {r} == s - (rest - {r})
  {
  }

  /** The state of each bundle request of `bs`. */
  ghost function BundleSnaps(bs: set<BL.BundleLoadRequest>): map<BL.BundleLoadRequest, BL.Snapshot>
    reads bs
  {
    map b | b in bs :: b.Snap()
  }

  /** The snapshots of the requests of `s`. */
  ghost function SnapsOf(s: set<AL.AssetLoadRequest>): map<AL.AssetLoadRequest, AL.Snapshot>
    reads s
  {
    map a | a in s :: a.Snap()
  }

  /** A map holding the snapshot of each request of `s`, and nothing else, is their snapshots. */
  lemma SnapsOfIs(s: set<AL.AssetLoadRequest>, m: map<AL.AssetLoadRequest, AL.Snapshot>)
    requires m.Keys == s && forall a :: a in s ==> m[a] == a.Snap()
    ensures SnapsOf(s) == m
  {
  }

  /** No request of `s` starts the tick in the extraction wait with no handle, from the snapshots `s0`. */
  ghost predicate NoneFault(s: set<AL.AssetLoadRequest>, s0: map<AL.AssetLoadRequest, AL.Snapshot>) {
    forall a :: a in s ==> a in s0 && !AL.Faults(s0[a])
  }

  /**
   * Part way through the asset tick over `s`: the requests outside `rest`
   * have been ticked once from their snapshots in `s0`, those in `rest`
   * not yet; all are consistent, and so are their bundle requests.
   */
  ghost predicate TickedBut(s: set<AL.AssetLoadRequest>, rest: set<AL.AssetLoadRequest>, s0: map<AL.AssetLoadRequest, AL.Snapshot>,
                            ext: AL.AssetLoadRequest -> AL.Extraction)
    reads s, set a | a in s && a.bundleRequest != null :: a.bundleRequest
  {
    && rest <= s && (forall a :: a in s ==> a in s0 && a.Valid())
    && (forall a :: a in s ==> a.bundleRequest != null ==> a.bundleRequest.Valid())
    && (forall a :: a in rest ==> a.Snap() == s0[a])
    && (forall a :: a in s && a !in rest ==> AssetTicked(a, s0[a], ext))
  }

  /**
   * The asset tick over the live requests `s`, starting from the cache
   * `cache0`: each request ticked in whatever order the set yields them,
   * the asset of each one that is done stored under its name, and the
   * done ones gathered in `finished`. When a name is already in the cache,
   * `Add` throws, and so does the `Update` of a request that faults: the
   * tick stops there (`ok` false), the requests after it untouched.
   */
  method TickAssets(s: set<AL.AssetLoadRequest>, cache0: map<string, Asset>, ext: AL.AssetLoadRequest -> AL.Extraction)
    returns (finished: set<AL.AssetLoadRequest>, cache: map<string, Asset>, ok: bool)
    requires forall a :: a in s ==> a.Valid() && (a.bundleRequest != null ==> a.bundleRequest.Valid())
    modifies s`state, s`handle, s`asset
    ensures forall a :: a in s ==> a.Valid()
    ensures forall a :: a in s ==> AssetTicked(a, old(a.Snap()), ext) || (!ok && a.Snap() == old(a.Snap()))
    ensures ok ==> Stored(s, cache0, cache, finished) && NoneFault(s, old(SnapsOf(s)))
    ensures !ok ==> !KeysFresh(s, cache0) || !NoneFault(s, old(SnapsOf(s)))
    ensures !ok ==> forall k :: k in cache0 ==> k in cache && cache[k] == cache0[k]
  {
    ghost var s0 := SnapsOf(s);
    var rest;
    rest, finished, cache, ok := TickLoop(s, s0, cache0, ext);
    TickedSoFar(s, rest, s0, ext);
  }

  /** The loop of the asset tick, from the snapshots `s0` of the requests; the ones it has not reached. */
  method TickLoop(s: set<AL.AssetLoadRequest>, ghost s0: map<AL.AssetLoadRequest, AL.Snapshot>, cache0: map<string, Asset>,
                  ext: AL.AssetLoadRequest -> AL.Extraction)
    returns (rest: set<AL.AssetLoadRequest>, finished: set<AL.AssetLoadRequest>, cache: map<string, Asset>, ok: bool)
    requires TickedBut(s, s, s0, ext)
    modifies s`state, s`handle, s`asset
    ensures TickedBut(s, rest, s0, ext)
    ensures ok ==> rest == {} && Stored(s, cache0, cache, finished) && NoneFault(s, s0)
    ensures !ok ==> !KeysFresh(s, cache0) || !NoneFault(s, s0)
    ensures !ok ==> forall k :: k in cache0 ==> k in cache && cache[k] == cache0[k]
  {
    rest := s;
    ghost var done := {};
    finished, cache, ok := {}, cache0, true;
    StoredNone(cache0);
    while rest != {} && ok
      invariant TickedBut(s, rest, s0, ext) && done == s - rest
      invariant ok ==> Stored(done, cache0, cache, finished) && NoneFault(done, s0)
      invariant !ok ==> !KeysFresh(s, cache0) || !NoneFault(s, s0)
      invariant forall k :: k in cache0 ==> k in cache && cache[k] == cache0[k]
      decreases |rest|
    {
      var r: AL.AssetLoadRequest :| r in rest;
      Moved(s, rest, done, r);
      ok, cache, finished := TickOne(s, rest, s0, r, ext, done, cache0, cache, finished);
      done := done + {r};
      rest := rest - {r};
    }
    if ok {
      assert done == s;
    }
  }

  /** Each request of `s` has been ticked from its snapshot in `s0`, or is one of `rest` and untouched. */
  lemma TickedSoFar(s: set<AL.AssetLoadRequest>, rest: set<AL.AssetLoadRequest>, s0: map<AL.AssetLoadRequest, AL.Snapshot>,
                    ext: AL.AssetLoadRequest -> AL.Extraction)
    requires TickedBut(s, rest, s0, ext)
    ensures forall a :: a in s ==> a in s0 && a.Valid() && (AssetTicked(a, s0[a], ext) || (a in rest && a.Snap() == s0[a]))
  {
  }

  /** The body of the asset tick's loop, for the request `r`: `ok` false when `Update` or `Add` throws. */
  method TickOne(s: set<AL.AssetLoadRequest>, rest: set<AL.AssetLoadRequest>, ghost s0: map<AL.AssetLoadRequest, AL.Snapshot>,
                 r: AL.AssetLoadRequest, ext: AL.AssetLoadRequest -> AL.Extraction,
                 ghost done: set<AL.AssetLoadRequest>, ghost cache0: map<string, Asset>,
                 cache: map<string, Asset>, finished: set<AL.AssetLoadRequest>)
    returns (ok: bool, cache': map<string, Asset>, finished': set<AL.AssetLoadRequest>)
    requires TickedBut(s, rest, s0, ext) && r in rest && done == s - rest
    requires Stored(done, cache0, cache, finished) && NoneFault(done, s0)
    modifies r`state, r`handle, r`asset
    ensures TickedBut(s, rest - {r}, s0, ext)
    ensures ok ==> Stored(done + {r}, cache0, cache', finished') && NoneFault(done + {r}, s0)
    ensures !ok ==> !KeysFresh(s, cache0) || !NoneFault(s, s0)
    ensures forall k :: k in cache ==> k in cache' && cache'[k] == cache[k]
  {
    var thrown := TickNext(s, rest, s0, r, ext, done, cache0, cache, finished);
    if thrown {
      ok, cache', finished' := false, cache, finished;
    } else {
      ok, cache', finished' := FileTicked(s, s0, r, done, cache0, cache, finished);
    }
  }

  /**
   * `request.Update()` on one request of the asset tick; what the tick has
   * stored for the requests before it still holds.
   */
  method TickNext(s: set<AL.AssetLoadRequest>, rest: set<AL.AssetLoadRequest>, ghost s0: map<AL.AssetLoadRequest, AL.Snapshot>,
                  r: AL.AssetLoadRequest, ext: AL.AssetLoadRequest -> AL.Extraction,
                  ghost done: set<AL.AssetLoadRequest>, ghost cache0: map<string, Asset>,
                  ghost cache: map<string, Asset>, ghost finished: set<AL.AssetLoadRequest>)
    returns (thrown: bool)
    requires TickedBut(s, rest, s0, ext) && r in rest
    requires r !in done && Stored(done, cache0, cache, finished)
    modifies r`state, r`handle, r`asset
    ensures TickedBut(s, rest - {r}, s0, ext)
    ensures Stored(done, cache0, cache, finished)
    ensures thrown <==> AL.Faults(s0[r])
    ensures thrown ==> !NoneFault(s, s0)
  {
    thrown := r.Update(ext(r));
    assert AssetTicked(r, s0[r], ext);
  }

  /**
   * The rest of the loop body for a request ticked without throwing: its
   * asset filed, or the clash of keys that makes `Add` throw.
   */
  method FileTicked(s: set<AL.AssetLoadRequest>, ghost s0: map<AL.AssetLoadRequest, AL.Snapshot>, r: AL.AssetLoadRequest,
                    ghost done: set<AL.AssetLoadRequest>, ghost cache0: map<string, Asset>,
                    cache: map<string, Asset>, finished: set<AL.AssetLoadRequest>)
    returns (ok: bool, cache': map<string, Asset>, finished': set<AL.AssetLoadRequest>)
    requires r in s && r !in done && done <= s && r.Valid() && r in s0 && !AL.Faults(s0[r])
    requires Stored(done, cache0, cache, finished) && NoneFault(done, s0)
    ensures ok ==> Stored(done + {r}, cache0, cache', finished') && NoneFault(done + {r}, s0)
    ensures !ok ==> !KeysFresh(s, cache0)
    ensures forall k :: k in cache ==> k in cache' && cache'[k] == cache[k]
  {
    StoreAssetFiles(r, done, cache0, cache, finished);
    var f := StoreAsset(r, cache, finished);
    ok, cache', finished' := f.stored, f.cache, f.finished;
    if !ok {
      ClashWidens(done + {r}, s, cache0);
    }
  }

  /** What the loop body does with a request just ticked. */
  datatype Filing = Filing(cache: map<string, Asset>, finished: set<AL.AssetLoadRequest>, stored: bool)

  /**
   * The rest of the loop body for a request just ticked: when it is done
   * with an asset, the asset stored under its name; `stored` false when
   * `Add` throws because the name is cached. A done request joins
   * `finished`.
   */
  function StoreAsset(r: AL.AssetLoadRequest, cache: map<string, Asset>, finished: set<AL.AssetLoadRequest>): (f: Filing)
    reads r
    requires r.Valid()
    ensures f.stored ==> (forall k :: k in cache ==> k in f.cache && f.cache[k] == cache[k])
    ensures !f.stored <==> Yields(r) && AssetKey(r) in cache
  {
    if r.IsDone() then
      var asset := r.GetAsset();
      if asset.Some? then
        if AssetKey(r) in cache then Filing(cache, finished, false)
        else Filing(cache[AssetKey(r) := asset.value], finished + {r}, true)
      else Filing(cache, finished + {r}, true)
    else Filing(cache, finished, true)
  }

  /** Storing one more request keeps the filing of the tick, or shows that its keys clash. */
  lemma StoreAssetFiles(r: AL.AssetLoadRequest, done: set<AL.AssetLoadRequest>, cache0: map<string, Asset>,
                        cache: map<string, Asset>, finished: set<AL.AssetLoadRequest>)
    requires r.Valid() && r !in done && Stored(done, cache0, cache, finished)
    ensures var f := StoreAsset(r, cache, finished);
      && (f.stored ==> Stored(done + {r}, cache0, f.cache, f.finished))
      && (!f.stored ==> !KeysFresh(done + {r}, cache0) && f.cache == cache)
  {
    if Yields(r) {
      if AssetKey(r) in cache {
        StoredClash(done, cache0, cache, finished, r);
      } else {
        StoredAdd(done, cache0, cache, finished, r);
      }
    } else {
      StoredSkip(done, cache0, cache, finished, r);
    }
  }

  // ----- clearing -----

  /** `Dispose()` on every request of a set, in whatever order it yields them. */
  method DisposeEach(s: set<BL.BundleLoadRequest>)
    requires forall r :: r in s ==> r.Valid()
    modifies s
    ensures forall r :: r in s ==> r.Valid() && r.Snap() == BL.Disposed(old(r.Snap()))
  {
    var rest := s;
    while rest != {}
      invariant rest <= s
      invariant forall r :: r in rest ==> r.Valid() && r.Snap() == old(r.Snap())
      invariant forall r :: r in s && r !in rest ==> r.Valid() && r.Snap() == BL.Disposed(old(r.Snap()))
      decreases |rest|
    {
      var r :| r in rest;
      r.Dispose();
      rest := rest - {r};
    }
  }

  /**
   * A disposed request is Idle, and a tick leaves an Idle request as it is:
   * a request that stays in an active set after it was disposed never ends,
   * so no later tick takes it out.
   */
  lemma DisposedNeverEnds(r: BL.BundleLoadRequest, s: BL.Snapshot, poll: BL.BundleLoadRequest -> BL.Poll, now: real,
                          limits: BL.Limits)
    requires Ticked(r, BL.Disposed(s), poll, now, limits)
    ensures r.Snap() == BL.Disposed(s) && r.state == BL.Idle && !Ended(r)
  {
    BL.RestingStates(r.assetBundleName, r.Fetch(), BL.Disposed(s), poll(r), now, limits);
  }

  class AssetBundleManager {
    const config: Config
    const helper: Helper
    /** The `ready` flag the manifest loading sets. */
    const ready: bool
    /** `_infoDictionary`, filled before `ready` is set and never changed after. */
    const infoDictionary: map<string, Info>
    /** A witness that the dependency graph of the info map is closed and acyclic. */
    ghost const rank: map<string, nat>

    /** Whether `_onError` is non-null. */
    var hasErrorCallback: bool
    /** The requests `_onError` has been called with, in order. */
    ghost var errorNotifications: seq<BL.BundleLoadRequest>

    var requestQueue: seq<BL.BundleLoadRequest>
    var errorQueue: seq<BL.BundleLoadRequest>
    var loadingRequests: set<BL.BundleLoadRequest>
    var downloadingRequests: set<BL.BundleLoadRequest>
    var requestMap: map<string, BL.BundleLoadRequest>
    /**
     * The `referencedCount` of each mapped request, under its name. Only the
     * manager reads or writes the count, always through the map, so it is
     * kept here rather than on the request object.
     */
    var referencedCounts: RefCount.Counts
    /**
     * The `_dependencies` list of each request that has been given one. The
     * manager is its only writer (SetDependencies, in the add walk) and hands
     * it to `Load`, its only reader, so it is kept here, under the request.
     */
    var dependencyLists: map<BL.BundleLoadRequest, seq<BL.BundleLoadRequest>>
    var assetLoadingRequests: set<AL.AssetLoadRequest>
    var loadedAssets: map<string, Asset>

    /** Every bundle request this manager has created. */
    ghost var bundles: set<BL.BundleLoadRequest>
    /** Every asset request this manager has registered. */
    ghost var assets: set<AL.AssetLoadRequest>

    function Limits(): BL.Limits {
      BL.Limits(config.timeoutRetryLimit, config.timeoutSeconds)
    }


    /** The names an add or remove walk from `name` visits. */
    ghost function Walk(name: string): seq<string>
      requires DependencyWalk.Ranked(infoDictionary, rank) && name in infoDictionary
    {
      DependencyWalk.VisitOrder(infoDictionary, rank, name)
    }

    /** A request was built from the info map's entry for its name, with this manager's helper. */
    ghost predicate FromInfo(b: BL.BundleLoadRequest) {
      && b.assetBundleName in infoDictionary
      && var info := infoDictionary[b.assetBundleName];
      && b.hash == info.manifestInfo.assetFileHash
      && b.size == info.size
      && b.crc == info.manifestInfo.crc
      && b.helper == helper
    }

    ghost predicate WellFormedInfos() {
      && DependencyWalk.Ranked(infoDictionary, rank)
      && forall n :: n in infoDictionary ==>
        infoDictionary[n].assetBundleName == n && infoDictionary[n].manifestInfo.crc <= ManifestParser.UIntMax
    }

    /** The collections, as values. */
    ghost function Tabled(): Tables
      reads this
    {
      Tables(requestQueue, errorQueue, loadingRequests, downloadingRequests, requestMap, referencedCounts,
             assetLoadingRequests, bundles, assets)
    }

    /** The manager's own fields hold together; nothing here reads a request object. */
    ghost predicate Core()
      reads this
    {
      && Coherent(Tabled())
      && WellFormedInfos()
      && RefCount.NonNegative(referencedCounts)
      && ListsNamed(infoDictionary, dependencyLists)
    }

    /** Every request the manager holds is consistent; every bundle request was built from the info map. */
    ghost predicate Objects()
      reads this, bundles, assets
    {
      && (forall b {:trigger b.Valid()} :: b in bundles ==> b.Valid())
      && (forall b {:trigger FromInfo(b)} :: b in bundles ==> FromInfo(b))
      && (forall a :: a in assets ==> a.Valid() && (a.bundleRequest != null ==> a.bundleRequest in bundles))
    }

    ghost predicate Valid()
      reads this, bundles, assets
    {
      Core() && Objects()
    }

    constructor (config: Config, helper: Helper, ready: bool, infos: map<string, Info>, ghost rank: map<string, nat>)
      requires DependencyWalk.Ranked(infos, rank)
      requires forall n :: n in infos ==> infos[n].assetBundleName == n && infos[n].manifestInfo.crc <= ManifestParser.UIntMax
      ensures Valid()
      ensures this.config == config && this.helper == helper && this.ready == ready
      ensures infoDictionary == infos && this.rank == rank
      ensures !hasErrorCallback && errorNotifications == []
      ensures requestQueue == [] && errorQueue == [] && loadingRequests == {} && downloadingRequests == {}
      ensures requestMap == map[] && referencedCounts == map[] && assetLoadingRequests == {} && loadedAssets == map[]
      ensures bundles == {} && assets == {} && dependencyLists == map[]
    {
      this.config := config;
      this.helper := helper;
      this.ready := ready;
      infoDictionary := infos;
      this.rank := rank;
      hasErrorCallback := false;
      errorNotifications := [];
      requestQueue := [];
      errorQueue := [];
      loadingRequests := {};
      downloadingRequests := {};
      requestMap := map[];
      referencedCounts := map[];
      assetLoadingRequests := {};
      loadedAssets := map[];
      bundles := {};
      assets := {};
      dependencyLists := map[];
    }

    // ----- adding requests -----

    /**
     * AddRequestInternal(string): a second sighting of a name raises its
     * count; a first one creates a request with count 0 from the info map,
     * stores it under its name and enqueues it.
     */
    method AddRequestInternalByName(name: string) returns (request: BL.BundleLoadRequest)
      requires Valid() && name in infoDictionary
      modifies this`requestMap, this`referencedCounts, this`requestQueue, this`bundles
      ensures Valid()
      ensures referencedCounts == RefCount.AddOne(old(referencedCounts), name)
      ensures name in requestMap && requestMap[name] == request
      ensures Grown(old(referencedCounts), old(requestMap), old(requestQueue), referencedCounts, requestMap, requestQueue, [name])
      ensures old(bundles) <= bundles && fresh(bundles - old(bundles))
    {
      ghost var c0, m0, q0 := referencedCounts, requestMap, requestQueue;
      if name in requestMap {
        request := requestMap[name];
        Retain(name);
      } else {
        request := Create(name);
      }
      GrownOne(c0, m0, q0, referencedCounts, requestMap, requestQueue, name);
    }

    /** A later sighting of a mapped name: one more reference. */
    method Retain(name: string)
      requires Core() && name in requestMap
      modifies this`referencedCounts
      ensures Core()
      ensures referencedCounts == old(referencedCounts)[name := old(referencedCounts)[name] + 1]
    {
      referencedCounts := referencedCounts[name := referencedCounts[name] + 1];
    }

    /** A first sighting: a new request from the info map, with count 0, stored under its name and enqueued. */
    method Create(name: string) returns (request: BL.BundleLoadRequest)
      requires Core() && name in infoDictionary && name !in requestMap
      modifies this`requestMap, this`referencedCounts, this`requestQueue, this`bundles
      ensures Core()
      ensures fresh(request) && request.Snap() == BL.Initial && request.Valid() && FromInfo(request)
      ensures request.assetBundleName == name
      ensures requestMap == old(requestMap)[name := request]
      ensures referencedCounts == old(referencedCounts)[name := 0]
      ensures requestQueue == old(requestQueue) + [request]
      ensures bundles == old(bundles) + {request}
    {
      request := NewRequest(name);
      Register(name, request);
    }

    /** `new AssetBundleLoadRequest(_helper, _infoDictionary[name])`. */
    method NewRequest(name: string) returns (request: BL.BundleLoadRequest)
      requires WellFormedInfos() && name in infoDictionary
      ensures fresh(request) && request.Snap() == BL.Initial && request.Valid() && FromInfo(request)
      ensures request.assetBundleName == name
    {
      request := new BL.BundleLoadRequest(helper, infoDictionary[name]);
    }

    /** A new request stored under its name with count 0, and enqueued. */
    method Register(name: string, request: BL.BundleLoadRequest)
      requires Core() && name !in requestMap && request !in bundles && request.assetBundleName == name
      modifies this`requestMap, this`referencedCounts, this`requestQueue, this`bundles
      ensures Core()
      ensures requestMap == old(requestMap)[name := request]
      ensures referencedCounts == old(referencedCounts)[name := 0]
      ensures requestQueue == old(requestQueue) + [request]
      ensures bundles == old(bundles) + {request}
    {
      CreateCoherent(Tabled(), name, request);
      requestMap := requestMap[name := request];
      referencedCounts := referencedCounts[name := 0];
      requestQueue := requestQueue + [request];
      bundles := bundles + {request};
    }

    /**
     * AddRequestInternalWithDependencies: each dependency's walk in manifest
     * order, then the bundle itself, whose request gets the requests of its
     * dependencies as its dependency list. The counts are the add fold along
     * the walk, the map keeps every old entry and gains the visited names,
     * exactly the first sightings are enqueued, in order, and every request
     * on the walk holds a dependency list.
     */
    method AddRequestInternalWithDependencies(name: string) returns (request: BL.BundleLoadRequest)
      requires Valid() && name in infoDictionary
      modifies this`requestMap, this`referencedCounts, this`requestQueue, this`bundles, this`dependencyLists
      ensures Valid()
      ensures Grown(old(referencedCounts), old(requestMap), old(requestQueue), referencedCounts, requestMap, requestQueue, Walk(name))
      ensures name in requestMap && requestMap[name] == request
      ensures old(bundles) <= bundles
      ensures old(dependencyLists).Keys <= dependencyLists.Keys && Linked(requestMap, dependencyLists, Walk(name))
      decreases rank[name], 1
    {
      ghost var c0, m0, q0 := referencedCounts, requestMap, requestQueue;
      var requests := AddDependencies(name);
      ghost var c1, m1, q1, l1 := referencedCounts, requestMap, requestQueue, dependencyLists;
      ghost var v := DependencyWalk.VisitList(infoDictionary, rank, rank[name], DependencyWalk.Deps(infoDictionary, name));
      request := AddVisit(name, requests);
      GrownCompose(c0, m0, q0, c1, m1, q1, referencedCounts, requestMap, requestQueue, v, [name]);
      LinkedCompose(m1, l1, requestMap, dependencyLists, v, [name]);
    }

    /** The last visit of a walk: the bundle itself, given the requests of its dependencies as its list. */
    method AddVisit(name: string, requests: seq<BL.BundleLoadRequest>) returns (request: BL.BundleLoadRequest)
      requires Valid() && name in infoDictionary && Names(requests) == DependencyWalk.Deps(infoDictionary, name)
      modifies this`requestMap, this`referencedCounts, this`requestQueue, this`bundles, this`dependencyLists
      ensures Valid()
      ensures Grown(old(referencedCounts), old(requestMap), old(requestQueue), referencedCounts, requestMap, requestQueue, [name])
      ensures name in requestMap && requestMap[name] == request
      ensures old(bundles) <= bundles
      ensures dependencyLists == old(dependencyLists)[request := requests]
    {
      request := AddRequestInternalByName(name);
      SetDependencies(request, requests);
    }

    /** `request.SetDependencies(requests)`, on the list the manager keeps for the request. */
    method SetDependencies(request: BL.BundleLoadRequest, requests: seq<BL.BundleLoadRequest>)
      requires Valid() && request.assetBundleName in infoDictionary
      requires Names(requests) == infoDictionary[request.assetBundleName].manifestInfo.dependencies
      modifies this`dependencyLists
      ensures Valid()
      ensures dependencyLists == old(dependencyLists)[request := requests]
    {
      ListsNamedUpdate(infoDictionary, dependencyLists, request, requests);
      dependencyLists := dependencyLists[request := requests];
    }

    /**
     * The loop of AddRequestInternalWithDependencies over the dependencies
     * of `name`: each one's walk in manifest order; the requests the walks
     * end at, in the same order.
     */
    method AddDependencies(name: string) returns (requests: seq<BL.BundleLoadRequest>)
      requires Valid() && name in infoDictionary
      modifies this`requestMap, this`referencedCounts, this`requestQueue, this`bundles, this`dependencyLists
      ensures Valid()
      ensures Grown(old(referencedCounts), old(requestMap), old(requestQueue), referencedCounts, requestMap, requestQueue,
        DependencyWalk.VisitList(infoDictionary, rank, rank[name], DependencyWalk.Deps(infoDictionary, name)))
      ensures old(bundles) <= bundles
      ensures Names(requests) == DependencyWalk.Deps(infoDictionary, name)
      ensures old(dependencyLists).Keys <= dependencyLists.Keys
      ensures Linked(requestMap, dependencyLists,
        DependencyWalk.VisitList(infoDictionary, rank, rank[name], DependencyWalk.Deps(infoDictionary, name)))
      decreases rank[name], 0
    {
      var deps := infoDictionary[name].manifestInfo.dependencies;
      ghost var c0, m0, q0 := referencedCounts, requestMap, requestQueue;
      ghost var bound := rank[name];
      requests := [];
      var i := 0;
      GrownNone(c0, m0, q0);
      while i < |deps|
        invariant 0 <= i <= |deps|
        invariant Valid()
        invariant DependencyWalk.Below(infoDictionary, rank, bound, deps[..i])
        invariant Grown(c0, m0, q0, referencedCounts, requestMap, requestQueue,
          DependencyWalk.VisitList(infoDictionary, rank, bound, deps[..i]))
        invariant old(bundles) <= bundles
        invariant Names(requests) == deps[..i]
        invariant old(dependencyLists).Keys <= dependencyLists.Keys
        invariant Linked(requestMap, dependencyLists, DependencyWalk.VisitList(infoDictionary, rank, bound, deps[..i]))
      {
        var d := deps[i];
        assert d in deps;
        DependencyWalk.VisitListSnoc(infoDictionary, rank, bound, deps, i);
        ghost var c1, m1, q1, l1 := referencedCounts, requestMap, requestQueue, dependencyLists;
        var r := AddRequestInternalWithDependencies(d);
        GrownStep(infoDictionary, rank, bound, deps, i, c0, m0, q0, c1, m1, q1, referencedCounts, requestMap, requestQueue);
        LinkedCompose(m1, l1, requestMap, dependencyLists,
          DependencyWalk.VisitList(infoDictionary, rank, bound, deps[..i]), DependencyWalk.VisitOrder(infoDictionary, rank, d));
        NamesSnoc(requests, r, deps, i);
        requests := requests + [r];
        i := i + 1;
      }
      assert deps[..|deps|] == deps;
    }

    // ----- releasing requests -----

    /**
     * RemoveRequestInternalWithDependencies: the release walk visits the
     * same names in the same order as the add walk, each dependency's walk
     * first and the bundle itself last.
     */
    method RemoveRequestInternalWithDependencies(name: string)
      requires Valid() && name in infoDictionary
      modifies this`requestMap, this`referencedCounts, this`requestQueue, this`loadingRequests, this`downloadingRequests, bundles
      ensures Valid()
      ensures Shrunk(old(Tabled()), Tabled(), Walk(name))
      ensures BundleSnaps(bundles) == Disposing(old(BundleSnaps(bundles)), DroppedOf(old(requestMap), requestMap))
      ensures requestQueue == ReleasedQueue(old(requestQueue), old(requestMap), old(referencedCounts), Walk(name))
      decreases rank[name], 1
    {
      ghost var t0, s0 := Tabled(), BundleSnaps(bundles);
      RemoveDependencies(name);
      ghost var t1, s1 := Tabled(), BundleSnaps(bundles);
      RemoveRequestInternal(name);
      ShrunkCompose(t0, t1, Tabled(),
        DependencyWalk.VisitList(infoDictionary, rank, rank[name], DependencyWalk.Deps(infoDictionary, name)), [name]);
      DisposedAlong(t0, t1, Tabled(), s0, s1, BundleSnaps(bundles));
    }

    /** Two release walks one after the other dispose what the two of them dropped. */
    lemma DisposedAlong(t0: Tables, t1: Tables, t2: Tables, s0: map<BL.BundleLoadRequest, BL.Snapshot>,
                        s1: map<BL.BundleLoadRequest, BL.Snapshot>, s2: map<BL.BundleLoadRequest, BL.Snapshot>)
      requires Coherent(t0)
      requires t1.requests.Keys <= t0.requests.Keys && (forall n :: n in t1.requests ==> t1.requests[n] == t0.requests[n])
      requires t2.requests.Keys <= t1.requests.Keys && (forall n :: n in t2.requests ==> t2.requests[n] == t1.requests[n])
      requires s1 == Disposing(s0, DroppedOf(t0.requests, t1.requests))
      requires s2 == Disposing(s1, DroppedOf(t1.requests, t2.requests))
      ensures s2 == Disposing(s0, DroppedOf(t0.requests, t2.requests))
    {
      DroppedCompose(t0.requests, t1.requests, t2.requests);
      DisposingCompose(s0, DroppedOf(t0.requests, t1.requests), DroppedOf(t1.requests, t2.requests));
    }

    /** The loop of RemoveRequestInternalWithDependencies over the dependencies of `name`, in manifest order. */
    method RemoveDependencies(name: string)
      requires Valid() && name in infoDictionary
      modifies this`requestMap, this`referencedCounts, this`requestQueue, this`loadingRequests, this`downloadingRequests, bundles
      ensures Valid()
      ensures Shrunk(old(Tabled()), Tabled(),
        DependencyWalk.VisitList(infoDictionary, rank, rank[name], DependencyWalk.Deps(infoDictionary, name)))
      ensures BundleSnaps(bundles) == Disposing(old(BundleSnaps(bundles)), DroppedOf(old(requestMap), requestMap))
      decreases rank[name], 0
    {
      var deps := infoDictionary[name].manifestInfo.dependencies;
      ghost var t0, s0 := Tabled(), BundleSnaps(bundles);
      ghost var bound := rank[name];
      var i := 0;
      ShrunkNone(t0);
      DroppedOne(requestMap, name);
      NothingDone(s0, dependencyLists, false);
      while i < |deps|
        invariant 0 <= i <= |deps|
        invariant Valid()
        invariant DependencyWalk.Below(infoDictionary, rank, bound, deps[..i])
        invariant Shrunk(t0, Tabled(), DependencyWalk.VisitList(infoDictionary, rank, bound, deps[..i]))
        invariant BundleSnaps(bundles) == Disposing(s0, DroppedOf(t0.requests, requestMap))
      {
        var d := deps[i];
        assert d in deps;
        DependencyWalk.VisitListSnoc(infoDictionary, rank, bound, deps, i);
        ghost var t1, s1 := Tabled(), BundleSnaps(bundles);
        RemoveRequestInternalWithDependencies(d);
        ShrunkStep(infoDictionary, rank, bound, deps, i, t0, t1, Tabled());
        DisposedAlong(t0, t1, Tabled(), s0, s1, BundleSnaps(bundles));
        i := i + 1;
      }
      assert deps[..|deps|] == deps;
    }

    /**
     * RemoveRequestInternal(string): a name without an entry is ignored; a
     * request with references left loses one; a request without is removed
     * from the pending queue, both active sets and the map, and disposed.
     * The error queue is never touched.
     */
    method RemoveRequestInternal(name: string)
      requires Valid()
      modifies this`requestMap, this`referencedCounts, this`requestQueue, this`loadingRequests, this`downloadingRequests, bundles
      ensures Valid()
      ensures Shrunk(old(Tabled()), Tabled(), [name])
      ensures name in old(requestMap) && old(referencedCounts[name]) <= 0 ==>
        old(requestMap[name]).Snap() == BL.Disposed(old(requestMap[name].Snap()))
      ensures requestQueue == if name in old(requestMap) && old(referencedCounts[name]) <= 0 && old(requestMap[name]) in old(requestQueue)
                              then RequestQueue.Rotated(old(requestQueue), old(requestMap[name]))
                              else old(requestQueue)
      ensures BundleSnaps(bundles) == Disposing(old(BundleSnaps(bundles)), DroppedOf(old(requestMap), requestMap))
    {
      if name in requestMap && referencedCounts[name] <= 0 {
        Drop(name);
      } else {
        Keep(name);
      }
    }

    /** RemoveRequestInternal where the entry stays: a reference fewer, or nothing for a name without an entry. */
    method Keep(name: string)
      requires Valid() && !(name in requestMap && referencedCounts[name] <= 0)
      modifies this`referencedCounts
      ensures Valid()
      ensures Shrunk(old(Tabled()), Tabled(), [name])
      ensures requestQueue == old(requestQueue)
      ensures BundleSnaps(bundles) == Disposing(old(BundleSnaps(bundles)), DroppedOf(old(requestMap), requestMap))
    {
      ghost var s0 := BundleSnaps(bundles);
      DroppedOne(requestMap, name);
      NothingDone(s0, dependencyLists, false);
      if name in requestMap {
        Release(name);
      } else {
        ReleaseAbsent(Tabled(), name);
      }
      assert BundleSnaps(bundles) == s0;
    }

    /** `referencedCount--`. */
    method Release(name: string)
      requires Core() && name in requestMap && referencedCounts[name] > 0
      modifies this`referencedCounts
      ensures Core()
      ensures Shrunk(old(Tabled()), Tabled(), [name])
      ensures BundleSnaps(bundles) == old(BundleSnaps(bundles))
    {
      ReleaseOne(Tabled(), name);
      referencedCounts := referencedCounts[name := referencedCounts[name] - 1];
    }

    /** The last reference released: the request leaves every collection but the error queue, and is disposed. */
    method Drop(name: string)
      requires Valid() && name in requestMap && referencedCounts[name] <= 0
      modifies this`requestMap, this`referencedCounts, this`requestQueue, this`loadingRequests, this`downloadingRequests, requestMap[name]
      ensures Valid()
      ensures Shrunk(old(Tabled()), Tabled(), [name])
      ensures old(requestMap[name]).Snap() == BL.Disposed(old(requestMap[name].Snap()))
      ensures BundleSnaps(bundles) == Disposing(old(BundleSnaps(bundles)), DroppedOf(old(requestMap), requestMap))
      ensures requestQueue == if old(requestMap[name]) in old(requestQueue) then RequestQueue.Rotated(old(requestQueue), old(requestMap[name]))
                              else old(requestQueue)
    {
      DroppedOne(requestMap, name);
      var request := requestMap[name];
      Unlist(name);
      DisposeRequest(request);
    }

    /** The rotation out of the pending queue, RemoveLoadingRequest and the map removal. */
    method Unlist(name: string)
      requires Core() && name in requestMap && referencedCounts[name] <= 0
      modifies this`requestMap, this`referencedCounts, this`requestQueue, this`loadingRequests, this`downloadingRequests
      ensures Core()
      ensures Shrunk(old(Tabled()), Tabled(), [name])
      ensures requestMap == old(requestMap) - {name}
      ensures requestQueue == if old(requestMap[name]) in old(requestQueue) then RequestQueue.Rotated(old(requestQueue), old(requestMap[name]))
                              else old(requestQueue)
    {
      var request := requestMap[name];
      var q := RequestQueue.RemoveFromQueue(requestQueue, request);
      RequestQueue.RemovedOnce(requestQueue, request, q);
      RemoveLoadingRequest(request);
      requestQueue := q;
      requestMap := requestMap - {name};
      referencedCounts := referencedCounts - {name};
      ghost var t := old(Tabled());
      DropOne(t, name, request, q);
      assert Tabled() == t.(requests := t.requests - {name}, counts := t.counts - {name}, queue := q,
                            loading := t.loading - {request}, downloading := t.downloading - {request});
    }

    /** `request.Dispose()` on a request of this manager. */
    method DisposeRequest(request: BL.BundleLoadRequest)
      requires Valid() && request in bundles
      modifies request
      ensures Valid()
      ensures request.Snap() == BL.Disposed(old(request.Snap()))
      ensures forall b :: b in bundles && b != request ==> b.Snap() == old(b.Snap())
      ensures BundleSnaps(bundles) == Disposing(old(BundleSnaps(bundles)), {request})
    {
      ghost var s0 := BundleSnaps(bundles);
      request.Dispose();
      DisposingOne(s0, BundleSnaps(bundles), request);
    }

    /** RemoveLoadingRequest: the request leaves whichever active set holds it. */
    method RemoveLoadingRequest(request: BL.BundleLoadRequest)
      modifies this`loadingRequests, this`downloadingRequests
      ensures downloadingRequests == old(downloadingRequests) - {request}
      ensures loadingRequests == old(loadingRequests) - {request}
    {
      if request in downloadingRequests {
        downloadingRequests := downloadingRequests - {request};
      }
      if request in loadingRequests {
        loadingRequests := loadingRequests - {request};
      }
    }

    // ----- the active sets -----

    /** IsAssetBundleCachedByFullPath: false before the manager is ready, else the version cache's answer. */
    function IsAssetBundleCachedByFullPath(assetBundlePath: string, hash: Hash128, cached: (string, Hash128) -> bool): (r: bool)
      ensures r <==> ready && cached(assetBundlePath, hash)
    {
      ready && cached(assetBundlePath, hash)
    }

    /**
     * The cache test AddLoadingRequest makes is IsAssetBundleCachedByFullPath
     * asked with the request's bundle name (not the URL IsAssetBundleCached
     * would ask about) and hash.
     */
    lemma CachedVersionAsked(cached: (string, Hash128) -> bool, r: BL.BundleLoadRequest)
      ensures CachedVersion(ready, cached, r) == IsAssetBundleCachedByFullPath(r.assetBundleName, r.hash, cached)
    {
    }

    /** IsAssetBundleCached: the same question about the URL the helper gives for a bundle name. */
    function IsAssetBundleCached(assetBundleName: string, hash: Hash128, cached: (string, Hash128) -> bool): (r: bool)
      ensures r <==> IsAssetBundleCachedByFullPath(helper.getUrl(assetBundleName), hash, cached)
    {
      ready && cached(helper.getUrl(assetBundleName), hash)
    }

    /** The dependency list a request's `Load` sees: the one stored for it, or none. */
    function ListOf(r: BL.BundleLoadRequest): Option<seq<BL.BundleLoadRequest>>
      reads this
    {
      ListIn(dependencyLists, r)
    }

    /** AddLoadingRequest: a request that is in neither active set joins one of them, by the cache test. */
    method AddLoadingRequest(request: BL.BundleLoadRequest, cached: (string, Hash128) -> bool)
      requires Valid() && request in bundles && request !in requestQueue && request !in errorQueue
      modifies this`loadingRequests, this`downloadingRequests
      ensures Valid()
      ensures Activated(old(loadingRequests), old(downloadingRequests), loadingRequests, downloadingRequests,
        request, CachedVersion(ready, cached, request))
    {
      ghost var t := Tabled();
      if request !in loadingRequests && request !in downloadingRequests {
        if IsAssetBundleCachedByFullPath(request.assetBundleName, request.hash, cached) {
          loadingRequests := loadingRequests + {request};
        } else {
          downloadingRequests := downloadingRequests + {request};
        }
      }
      ActivateCoherent(t, request, loadingRequests, downloadingRequests, CachedVersion(ready, cached, request));
    }

    /** `request.Load()` on a request of this manager, with the list the manager keeps for it. */
    method LoadRequest(request: BL.BundleLoadRequest)
      requires Valid() && request in bundles
      modifies request
      ensures Valid()
      ensures request.Snap() == BL.Loaded(old(request.Snap()), ListOf(request))
      ensures forall b :: b in bundles && b != request ==> b.Snap() == old(b.Snap())
    {
      request.Load(ListOf(request));
    }

    // ----- promotion -----

    /**
     * UpdateAssetBundleLoadRequestQueue: pending requests are dequeued in
     * FIFO order, loaded and made active while fewer than the limit are
     * active. Afterwards the queue is empty or the limit is reached; the
     * promoted requests are the front of the old queue, split between the
     * two active sets by the cache test.
     */
    method UpdateAssetBundleLoadRequestQueue(cached: (string, Hash128) -> bool)
      requires Valid()
      modifies this`requestQueue, this`loadingRequests, this`downloadingRequests, bundles
      ensures Valid()
      ensures requestQueue == [] || |downloadingRequests| + |loadingRequests| >= config.loadRequestMaxCount
      ensures PassDone(old(requestQueue), old(loadingRequests), old(downloadingRequests), config.loadRequestMaxCount,
                       ready, cached, requestQueue, loadingRequests, downloadingRequests)
      ensures BundleSnaps(bundles) ==
        Loading(old(BundleSnaps(bundles)), Elems(old(requestQueue)) - Elems(requestQueue), dependencyLists, false)
    {
      ghost var q0, l0, d0, s0 := requestQueue, loadingRequests, downloadingRequests, BundleSnaps(bundles);
      ghost var i := 0;
      PromotedNone(q0, ready, cached, l0, d0);
      CountedNone(l0, d0, config.loadRequestMaxCount);
      assert q0[..0] == [];
      NothingDone(s0, dependencyLists, false);
      while requestQueue != []
        invariant Valid() && Promoting(q0, l0, d0, i, cached)
        invariant BundleSnaps(bundles) == Loading(s0, Elems(q0[..i]), dependencyLists, false)
        decreases |q0| - i
      {
        if |downloadingRequests| + |loadingRequests| >= config.loadRequestMaxCount {
          break;
        }
        var request := PromoteNext(cached, q0, i, l0, d0, s0);
        i := i + 1;
      }
      PromotingEnds(q0, l0, d0, i, cached);
      FrontTaken(q0, i);
    }

    /** A pass that stopped, at the end of the queue or at the limit, has promoted PromotionCount requests. */
    lemma PromotingEnds(q0: seq<BL.BundleLoadRequest>, l0: set<BL.BundleLoadRequest>, d0: set<BL.BundleLoadRequest>,
                        i: nat, cached: (string, Hash128) -> bool)
      requires Promoting(q0, l0, d0, i, cached)
      requires requestQueue == [] || |downloadingRequests| + |loadingRequests| >= config.loadRequestMaxCount
      ensures PassDone(q0, l0, d0, config.loadRequestMaxCount, ready, cached, requestQueue, loadingRequests, downloadingRequests)
    {
      PromotionEnds(q0, i, ready, cached, l0, d0, loadingRequests, downloadingRequests, requestQueue, config.loadRequestMaxCount);
    }

    /** The state a promotion pass from `q0`, `l0`, `d0` is in after `i` promotions. */
    ghost predicate Promoting(q0: seq<BL.BundleLoadRequest>, l0: set<BL.BundleLoadRequest>, d0: set<BL.BundleLoadRequest>,
                              i: nat, cached: (string, Hash128) -> bool)
      reads this
    {
      && i <= |q0| && requestQueue == q0[i..]
      && Promoted(q0, i, ready, cached, l0, d0, loadingRequests, downloadingRequests)
      && Counted(l0, d0, loadingRequests, downloadingRequests, i, config.loadRequestMaxCount)
    }

    /** One promotion, as a step of the pass: the next request of `q0` joins its active set. */
    method PromoteNext(cached: (string, Hash128) -> bool, ghost q0: seq<BL.BundleLoadRequest>, ghost i: nat,
                       ghost l0: set<BL.BundleLoadRequest>, ghost d0: set<BL.BundleLoadRequest>,
                       ghost s0: map<BL.BundleLoadRequest, BL.Snapshot>) returns (request: BL.BundleLoadRequest)
      requires Valid() && Promoting(q0, l0, d0, i, cached) && Distinct(q0)
      requires requestQueue != [] && |downloadingRequests| + |loadingRequests| < config.loadRequestMaxCount
      requires BundleSnaps(bundles) == Loading(s0, Elems(q0[..i]), dependencyLists, false)
      modifies this`requestQueue, this`loadingRequests, this`downloadingRequests, requestQueue[0]
      ensures Valid() && Promoting(q0, l0, d0, i + 1, cached)
      ensures request == q0[i]
      ensures BundleSnaps(bundles) == Loading(s0, Elems(q0[..i + 1]), dependencyLists, false)
    {
      ghost var l1, d1, m0 := loadingRequests, downloadingRequests, BundleSnaps(bundles);
      request := PromoteOne(cached);
      LoadingOne(m0, BundleSnaps(bundles), request, dependencyLists, false);
      PromotedStep(q0, i, ready, cached, l0, d0, l1, d1, loadingRequests, downloadingRequests);
      CountedStep(l0, d0, l1, d1, loadingRequests, downloadingRequests, i, config.loadRequestMaxCount);
      FrontSnoc(q0, i);
      LoadingSnoc(s0, Elems(q0[..i]), request, dependencyLists, false);
    }

    /** One promotion: dequeue, `Load`, AddLoadingRequest. */
    method PromoteOne(cached: (string, Hash128) -> bool) returns (request: BL.BundleLoadRequest)
      requires Valid() && requestQueue != []
      modifies this`requestQueue, this`loadingRequests, this`downloadingRequests, requestQueue[0]
      ensures Valid()
      ensures request == old(requestQueue[0]) && requestQueue == old(requestQueue[1..])
      ensures request.Snap() == BL.Loaded(old(request.Snap()), ListOf(request))
      ensures forall b :: b in bundles && b != request ==> b.Snap() == old(b.Snap())
      ensures request !in old(loadingRequests) && request !in old(downloadingRequests)
      ensures Activated(old(loadingRequests), old(downloadingRequests), loadingRequests, downloadingRequests,
        request, CachedVersion(ready, cached, request))
    {
      request := requestQueue[0];
      DequeueCoherent(Tabled());
      requestQueue := requestQueue[1..];
      LoadRequest(request);
      AddLoadingRequest(request, cached);
    }

    // ----- manual retry -----

    /**
     * Retry: the error queue is emptied; each failed request that is not
     * active (every one, as the active sets and the error queue never
     * share a request) is disposed, loaded again and made active directly,
     * past the pending queue and the limit.
     */
    method Retry(cached: (string, Hash128) -> bool)
      requires Valid()
      modifies this`errorQueue, this`loadingRequests, this`downloadingRequests, bundles
      ensures Valid()
      ensures !ready ==> errorQueue == old(errorQueue) && loadingRequests == old(loadingRequests) && downloadingRequests == old(downloadingRequests)
      ensures !ready ==> BundleSnaps(bundles) == old(BundleSnaps(bundles))
      ensures ready ==>
        && errorQueue == []
        && Promoted(old(errorQueue), |old(errorQueue)|, ready, cached, old(loadingRequests), old(downloadingRequests), loadingRequests, downloadingRequests)
        && BundleSnaps(bundles) == Loading(old(BundleSnaps(bundles)), Elems(old(errorQueue)), dependencyLists, true)
    {
      if !ready {
        return;
      }
      ghost var e0, l0, d0, s0 := errorQueue, loadingRequests, downloadingRequests, BundleSnaps(bundles);
      ghost var i := 0;
      PromotedNone(e0, ready, cached, l0, d0);
      assert e0[..0] == [];
      NothingDone(s0, dependencyLists, true);
      assert Distinct(e0);
      while errorQueue != []
        invariant Valid()
        invariant 0 <= i <= |e0| && errorQueue == e0[i..]
        invariant Promoted(e0, i, ready, cached, l0, d0, loadingRequests, downloadingRequests)
        invariant Distinct(e0) && BundleSnaps(bundles) == Loading(s0, Elems(e0[..i]), dependencyLists, true)
        decreases |errorQueue|
      {
        ghost var m0 := BundleSnaps(bundles);
        var request := RetryNext(cached, e0, i, l0, d0);
        LoadingOne(m0, BundleSnaps(bundles), request, dependencyLists, true);
        FrontSnoc(e0, i);
        LoadingSnoc(s0, Elems(e0[..i]), request, dependencyLists, true);
        i := i + 1;
      }
      PromotedAll(e0, i, ready, cached, l0, d0, loadingRequests, downloadingRequests);
      assert e0[..i] == e0;
    }

    /** One turn of Retry's loop, as a step of the pass: the next failed request of `e0` joins its active set. */
    method RetryNext(cached: (string, Hash128) -> bool, ghost e0: seq<BL.BundleLoadRequest>, ghost i: nat,
                     ghost l0: set<BL.BundleLoadRequest>, ghost d0: set<BL.BundleLoadRequest>) returns (request: BL.BundleLoadRequest)
      requires Valid() && i < |e0| && errorQueue == e0[i..]
      requires Promoted(e0, i, ready, cached, l0, d0, loadingRequests, downloadingRequests)
      modifies this`errorQueue, this`loadingRequests, this`downloadingRequests, errorQueue[0]
      ensures Valid()
      ensures request == e0[i] && errorQueue == e0[i + 1..]
      ensures request.Snap() == BL.Loaded(BL.Disposed(old(request.Snap())), ListOf(request))
      ensures forall b :: b in bundles && b != request ==> b.Snap() == old(b.Snap())
      ensures Promoted(e0, i + 1, ready, cached, l0, d0, loadingRequests, downloadingRequests)
    {
      ghost var l1, d1 := loadingRequests, downloadingRequests;
      request := RetryOne(cached);
      PromotedStep(e0, i, ready, cached, l0, d0, l1, d1, loadingRequests, downloadingRequests);
    }

    /** One turn of Retry's loop. */
    method RetryOne(cached: (string, Hash128) -> bool) returns (request: BL.BundleLoadRequest)
      requires Valid() && errorQueue != []
      modifies this`errorQueue, this`loadingRequests, this`downloadingRequests, errorQueue[0]
      ensures Valid()
      ensures request == old(errorQueue[0]) && errorQueue == old(errorQueue[1..])
      ensures request.Snap() == BL.Loaded(BL.Disposed(old(request.Snap())), ListOf(request))
      ensures forall b :: b in bundles && b != request ==> b.Snap() == old(b.Snap())
      ensures request !in old(loadingRequests) && request !in old(downloadingRequests)
      ensures Activated(old(loadingRequests), old(downloadingRequests), loadingRequests, downloadingRequests,
        request, CachedVersion(ready, cached, request))
    {
      request := errorQueue[0];
      DequeueErrorCoherent(Tabled());
      errorQueue := errorQueue[1..];
      if request !in loadingRequests && request !in downloadingRequests {
        Reactivate(request, cached);
      }
    }

    /** Retry's treatment of one idle failed request: `Dispose`, `Load`, AddLoadingRequest. */
    method Reactivate(request: BL.BundleLoadRequest, cached: (string, Hash128) -> bool)
      requires Valid() && request in bundles && request !in requestQueue && request !in errorQueue
      modifies this`loadingRequests, this`downloadingRequests, request
      ensures Valid()
      ensures request.Snap() == BL.Loaded(BL.Disposed(old(request.Snap())), ListOf(request))
      ensures forall b :: b in bundles && b != request ==> b.Snap() == old(b.Snap())
      ensures Activated(old(loadingRequests), old(downloadingRequests), loadingRequests, downloadingRequests,
        request, CachedVersion(ready, cached, request))
    {
      DisposeRequest(request);
      LoadRequest(request);
      AddLoadingRequest(request, cached);
    }

    // ----- the bundle tick -----

    /**
     * UpdateAssetBundleLoadRequest: every active request, the downloading
     * ones first, is ticked once on its poll; the Done and Error ones leave
     * the active sets, and the Error ones join the error queue (and are
     * passed to the error callback when one is set), the downloading
     * set's failures first.
     */
    method UpdateAssetBundleLoadRequest(poll: BL.BundleLoadRequest -> BL.Poll, now: real)
      requires Valid()
      modifies this`errorQueue, this`loadingRequests, this`downloadingRequests, this`errorNotifications,
        downloadingRequests, loadingRequests
      ensures Valid()
      ensures forall r :: r in old(downloadingRequests) ==> Ticked(r, old(r.Snap()), poll, now, Limits())
      ensures forall r :: r in old(loadingRequests) ==> Ticked(r, old(r.Snap()), poll, now, Limits())
      ensures downloadingRequests <= old(downloadingRequests)
      ensures forall r :: r in old(downloadingRequests) ==> (r in downloadingRequests <==> !Ended(r))
      ensures loadingRequests <= old(loadingRequests)
      ensures forall r :: r in old(loadingRequests) ==> (r in loadingRequests <==> !Ended(r))
      ensures FailuresQueued(old(errorQueue), errorQueue, old(downloadingRequests), old(loadingRequests))
      ensures errorNotifications == old(errorNotifications) + (if hasErrorCallback then errorQueue[|old(errorQueue)|..] else [])
    {
      var finished, failed := TickActive(poll, now);
      Settle(finished, failed);
    }

    /**
     * The first loop of the tick: the downloading set, then the loading
     * set, each request ticked once; the ones that ended, and the failed
     * ones in the order the error queue takes them.
     */
    method TickActive(poll: BL.BundleLoadRequest -> BL.Poll, now: real)
      returns (finished: set<BL.BundleLoadRequest>, failed: seq<BL.BundleLoadRequest>)
      requires Valid()
      modifies downloadingRequests, loadingRequests
      ensures Valid()
      ensures forall r :: r in downloadingRequests ==> Ticked(r, old(r.Snap()), poll, now, Limits())
      ensures forall r :: r in loadingRequests ==> Ticked(r, old(r.Snap()), poll, now, Limits())
      ensures finished <= downloadingRequests + loadingRequests
      ensures forall r :: r in downloadingRequests + loadingRequests ==> (r in finished <==> Ended(r))
      ensures Distinct(failed) && Elems(failed) <= finished
      ensures FailuresQueued(errorQueue, errorQueue + failed, downloadingRequests, loadingRequests)
    {
      var finishedD, failedD := TickSet(downloadingRequests, poll, now);
      var finishedL, failedL := TickSet(loadingRequests, poll, now);
      FailuresQueuedOf(errorQueue, failedD, failedL, finishedD, finishedL, downloadingRequests, loadingRequests);
      finished, failed := finishedD + finishedL, failedD + failedL;
    }

    /**
     * The second loop of the tick and the error queue: the requests that
     * ended leave the active sets, and the failed ones are enqueued (and
     * passed to the error callback when one is set) in order.
     */
    method Settle(finished: set<BL.BundleLoadRequest>, failed: seq<BL.BundleLoadRequest>)
      requires Valid() && finished <= downloadingRequests + loadingRequests
      requires Distinct(failed) && Elems(failed) <= finished
      modifies this`errorQueue, this`loadingRequests, this`downloadingRequests, this`errorNotifications
      ensures Valid()
      ensures loadingRequests == old(loadingRequests) - finished
      ensures downloadingRequests == old(downloadingRequests) - finished
      ensures errorQueue == old(errorQueue) + failed
      ensures errorNotifications == old(errorNotifications) + (if hasErrorCallback then failed else [])
    {
      ghost var t := Tabled();
      RemoveFinished(finished);
      SettleCoherent(t, finished, failed);
      errorQueue := errorQueue + failed;
      if hasErrorCallback {
        errorNotifications := errorNotifications + failed;
      }
    }

    /**
     * TickAll on an active set of this manager, with its limits; the
     * manager stays valid, its requests having only been ticked.
     */
    method TickSet(s: set<BL.BundleLoadRequest>, poll: BL.BundleLoadRequest -> BL.Poll, now: real)
      returns (finished: set<BL.BundleLoadRequest>, failed: seq<BL.BundleLoadRequest>)
      requires Valid() && s <= bundles
      modifies s
      ensures Valid()
      ensures forall r :: r in s ==> Ticked(r, old(r.Snap()), poll, now, Limits())
      ensures Classified(s, finished, failed)
    {
      finished, failed := TickAll(s, poll, now, Limits());
    }

    /** The second loop of the tick: RemoveLoadingRequest on every request that ended. */
    method RemoveFinished(finished: set<BL.BundleLoadRequest>)
      modifies this`loadingRequests, this`downloadingRequests
      ensures loadingRequests == old(loadingRequests) - finished
      ensures downloadingRequests == old(downloadingRequests) - finished
    {
      ghost var l0, d0 := loadingRequests, downloadingRequests;
      var rest := finished;
      while rest != {}
        invariant rest <= finished
        invariant loadingRequests == l0 - (finished - rest)
        invariant downloadingRequests == d0 - (finished - rest)
        decreases |rest|
      {
        var r :| r in rest;
        RemoveLoadingRequest(r);
        rest := rest - {r};
      }
    }


    // ----- the asset tick -----

    /**
     * UpdateAssetLoadRequest: every live asset request is ticked once; the
     * asset of each one that is done is added to the cache under its name,
     * and the done ones leave the live set. `Add` throws on a name already
     * cached, and a request's `Update` throws in the extraction wait with no
     * handle (`ok` false): the tick stops at that request, the ones after
     * it are not ticked, and the removal loop is never reached.
     */
    method UpdateAssetLoadRequest(ext: AL.AssetLoadRequest -> AL.Extraction) returns (ok: bool)
      requires Valid()
      modifies this`loadedAssets, this`assetLoadingRequests,
        assetLoadingRequests`state, assetLoadingRequests`handle, assetLoadingRequests`asset
      ensures Valid()
      ensures forall a :: a in old(assetLoadingRequests) ==>
        AssetTicked(a, old(a.Snap()), ext) || (!ok && a.Snap() == old(a.Snap()))
      ensures ok <==> KeysFresh(old(assetLoadingRequests), old(loadedAssets)) &&
                      NoneFault(old(assetLoadingRequests), old(SnapsOf(assetLoadingRequests)))
      ensures ok ==> Cached(old(assetLoadingRequests), old(loadedAssets), loadedAssets)
      ensures ok ==> assetLoadingRequests <= old(assetLoadingRequests)
      ensures ok ==> forall a :: a in old(assetLoadingRequests) ==> (a in assetLoadingRequests <==> a.state != AL.Done)
      ensures !ok ==> assetLoadingRequests == old(assetLoadingRequests)
      ensures !ok ==> forall k :: k in old(loadedAssets) ==> k in loadedAssets && loadedAssets[k] == old(loadedAssets)[k]
    {
      var finished, cache;
      finished, cache, ok := TickAssetSet(ext);
      Commit(finished, cache, ok);
    }

    /** What the asset tick leaves: the cache, and unless it stopped, the live set without the finished requests. */
    method Commit(finished: set<AL.AssetLoadRequest>, cache: map<string, Asset>, ok: bool)
      requires Valid()
      modifies this`loadedAssets, this`assetLoadingRequests
      ensures Valid() && loadedAssets == cache
      ensures assetLoadingRequests == if ok then old(assetLoadingRequests) - finished else old(assetLoadingRequests)
    {
      SetLoadedAssets(cache);
      if ok {
        RemoveAssetRequests(finished);
      }
    }

    /** TickAssets on the live asset requests and the cache; the manager stays valid. */
    method TickAssetSet(ext: AL.AssetLoadRequest -> AL.Extraction)
      returns (finished: set<AL.AssetLoadRequest>, cache: map<string, Asset>, ok: bool)
      requires Valid()
      modifies assetLoadingRequests`state, assetLoadingRequests`handle, assetLoadingRequests`asset
      ensures Valid()
      ensures forall a :: a in assetLoadingRequests ==> AssetTicked(a, old(a.Snap()), ext) || (!ok && a.Snap() == old(a.Snap()))
      ensures ok ==> Stored(assetLoadingRequests, loadedAssets, cache, finished) &&
                     NoneFault(assetLoadingRequests, old(SnapsOf(assetLoadingRequests)))
      ensures !ok ==> !KeysFresh(assetLoadingRequests, loadedAssets) ||
                      !NoneFault(assetLoadingRequests, old(SnapsOf(assetLoadingRequests)))
      ensures !ok ==> forall k :: k in loadedAssets ==> k in cache && cache[k] == loadedAssets[k]
    {
      finished, cache, ok := TickAssets(assetLoadingRequests, loadedAssets, ext);
    }

    /** What the tick's `Add` calls have left in `_loadedAssets`. */
    method SetLoadedAssets(cache: map<string, Asset>)
      requires Valid()
      modifies this`loadedAssets
      ensures Valid() && loadedAssets == cache
    {
      loadedAssets := cache;
    }

    /** The removal loop of the asset tick. */
    method RemoveAssetRequests(finished: set<AL.AssetLoadRequest>)
      requires Valid()
      modifies this`assetLoadingRequests
      ensures Valid()
      ensures assetLoadingRequests == old(assetLoadingRequests) - finished
    {
      ghost var a0 := assetLoadingRequests;
      var rest := finished;
      while rest != {}
        invariant rest <= finished
        invariant assetLoadingRequests == a0 - (finished - rest)
        decreases |rest|
      {
        var a :| a in rest;
        assetLoadingRequests := assetLoadingRequests - {a};
        rest := rest - {a};
      }
      ghost var t := Tabled();
      assert Coherent(t) by {
        assert Coherent(old(Tabled())) && t == old(Tabled()).(assetLoading := assetLoadingRequests);
      }
    }

    // ----- asset requests -----

    /**
     * The bundle name AddRequest<T> settles on: the one given, unless it is
     * null or empty while an asset name is given, then the helper's.
     */
    function ResolvedBundleName(assetName: Option<string>, assetBundleName: Option<string>): Option<string> {
      if IsNullOrEmpty(assetBundleName) && !IsNullOrEmpty(assetName) then helper.getAssetBundleName(assetName.value)
      else assetBundleName
    }

    /** IsAssetLoaded: an asset is cached under the name. */
    predicate IsAssetLoaded(assetName: string)
      reads this
    {
      assetName in loadedAssets
    }

    /** The guards of AddRequest<T> let a request through: ready, a bundle name, and no such asset loaded yet. */
    ghost predicate Admits(assetName: Option<string>, assetBundleName: Option<string>)
      reads this
    {
      AdmitsWith(loadedAssets, assetName, assetBundleName)
    }

    /** Admits, with `cache` as the loaded assets. */
    ghost predicate AdmitsWith(cache: map<string, Asset>, assetName: Option<string>, assetBundleName: Option<string>) {
      && ready
      && !IsNullOrEmpty(ResolvedBundleName(assetName, assetBundleName))
      && (IsNullOrEmpty(assetName) || assetName.value !in cache)
    }

    /**
     * What AddRequestInternal did with the new request `r`, from the
     * collections `t0` to the collections `t1`, leaving `r` in the state
     * `snap`: `r` joined the live set;
     * when the info map knows its bundle name (`attached`), the add walk ran
     * from the name and `r` is attached to the request the walk ends at,
     * waiting for it; when it does not, the walk threw and nothing else
     * changed.
     */
    ghost predicate RegisteredAt(t0: Tables, t1: Tables, r: AL.AssetLoadRequest, snap: AL.Snapshot, attached: bool)
      requires DependencyWalk.Ranked(infoDictionary, rank)
    {
      && r !in t0.assets
      && (attached <==> r.assetBundleName in infoDictionary)
      && t1.assetLoading == t0.assetLoading + {r} && t1.assets == t0.assets + {r}
      && if attached then
        && Grown(t0.counts, t0.requests, t0.queue, t1.counts, t1.requests, t1.queue, Walk(r.assetBundleName))
        && r.assetBundleName in t1.requests
        && snap == AL.Snapshot(AL.WaitingDownload, t1.requests[r.assetBundleName], None, None)
        && t1.errors == t0.errors && t1.loading == t0.loading && t1.downloading == t0.downloading
        && t0.bundles <= t1.bundles
      else
        && snap == AL.Snapshot(AL.Idle, null, None, None)
        && t1 == t0.(assetLoading := t0.assetLoading + {r}, assets := t0.assets + {r})
    }

    /** RegisteredAt, from `t0` to the collections now, with `r` in its state now. */
    ghost predicate Registered(t0: Tables, r: AL.AssetLoadRequest, attached: bool)
      reads this, r
      requires DependencyWalk.Ranked(infoDictionary, rank)
    {
      RegisteredAt(t0, Tabled(), r, r.Snap(), attached)
    }

    /**
     * What AddRequest<T>(assetName, assetBundleName, subAssetName) did to
     * the collections, from `t0` to `t1`, with `cache` as the loaded assets,
     * leaving the new request, if any, in the state `snap`: a refusal
     * changes nothing; otherwise a new request for the resolved
     * bundle name, asset name and sub-asset name was registered, attached
     * or not.
     */
    ghost predicate AddEffectAt(t0: Tables, t1: Tables, cache: map<string, Asset>, snap: AL.Snapshot,
                                assetName: Option<string>, assetBundleName: Option<string>, subAssetName: Option<string>,
                                outcome: AddOutcome)
      requires DependencyWalk.Ranked(infoDictionary, rank)
    {
      var name := ResolvedBundleName(assetName, assetBundleName);
      match outcome
      case NotReady => !ready && t1 == t0
      case NoBundleName => ready && IsNullOrEmpty(name) && t1 == t0
      case AlreadyLoaded =>
        && ready && !IsNullOrEmpty(name) && !IsNullOrEmpty(assetName) && assetName.value in cache
        && t1 == t0
      case UnknownBundle(r) =>
        && AdmitsWith(cache, assetName, assetBundleName)
        && r.assetBundleName == name.value && r.assetName == assetName && r.subAssetName == subAssetName
        && RegisteredAt(t0, t1, r, snap, false)
      case Added(r) =>
        && AdmitsWith(cache, assetName, assetBundleName)
        && r.assetBundleName == name.value && r.assetName == assetName && r.subAssetName == subAssetName
        && RegisteredAt(t0, t1, r, snap, true)
    }

    /** AddEffectAt, from `t0` to the collections now, with the new request in its state now. */
    ghost predicate AddEffect(t0: Tables, assetName: Option<string>, assetBundleName: Option<string>,
                              subAssetName: Option<string>, outcome: AddOutcome)
      reads this, if outcome.UnknownBundle? || outcome.Added? then {outcome.request} else {}
      requires DependencyWalk.Ranked(infoDictionary, rank)
    {
      AddEffectAt(t0, Tabled(), loadedAssets, SnapOf(outcome), assetName, assetBundleName, subAssetName, outcome)
    }

    /**
     * AddRequest<T>: refused before the manager is ready, without a bundle
     * name, or for an asset already loaded; otherwise a new asset request
     * is registered through AddRequestInternal.
     */
    method AddRequest(assetName: Option<string>, assetBundleName: Option<string>, subAssetName: Option<string>)
      returns (outcome: AddOutcome)
      requires Valid()
      modifies this`assetLoadingRequests, this`assets, this`requestMap, this`referencedCounts, this`requestQueue,
        this`bundles, this`dependencyLists
      ensures Valid()
      ensures AddEffect(old(Tabled()), assetName, assetBundleName, subAssetName, outcome)
      ensures outcome.UnknownBundle? || outcome.Added? ==> fresh(outcome.request)
    {
      if !ready {
        return NotReady;
      }
      var name := ResolvedBundleName(assetName, assetBundleName);
      if IsNullOrEmpty(name) {
        return NoBundleName;
      }
      if !IsNullOrEmpty(assetName) && IsAssetLoaded(assetName.value) {
        return AlreadyLoaded;
      }
      outcome := AddNew(assetName, assetBundleName, subAssetName);
    }

    /** `AddRequestInternal(new AssetLoadRequest<T>(assetBundleName, assetName, subAssetName))`. */
    method AddNew(assetName: Option<string>, assetBundleName: Option<string>, subAssetName: Option<string>)
      returns (outcome: AddOutcome)
      requires Valid() && Admits(assetName, assetBundleName)
      modifies this`assetLoadingRequests, this`assets, this`requestMap, this`referencedCounts, this`requestQueue,
        this`bundles, this`dependencyLists
      ensures Valid()
      ensures AddEffect(old(Tabled()), assetName, assetBundleName, subAssetName, outcome)
      ensures (outcome.UnknownBundle? || outcome.Added?) && fresh(outcome.request)
    {
      var name := ResolvedBundleName(assetName, assetBundleName).value;
      var request := new AL.AssetLoadRequest(name, assetName, subAssetName);
      var attached := AddRequestInternal(request);
      outcome := if attached then Added(request) else UnknownBundle(request);
    }

    /**
     * AddRequestInternal(IAssetLoadRequest): the request joins the live set,
     * then the add walk runs from its bundle name and the request is
     * attached to the request the walk ends at. A name the info map lacks
     * throws KeyNotFoundException (`attached` false) after the request
     * joined the live set.
     */
    method AddRequestInternal(request: AL.AssetLoadRequest) returns (attached: bool)
      requires Valid() && request !in assets && request.Valid() && request.Snap() == AL.Snapshot(AL.Idle, null, None, None)
      modifies this`assetLoadingRequests, this`assets, this`requestMap, this`referencedCounts, this`requestQueue,
        this`bundles, this`dependencyLists, request`bundleRequest, request`state
      ensures Valid()
      ensures Registered(old(Tabled()), request, attached)
    {
      ghost var t0 := Tabled();
      Track(request);
      attached := request.assetBundleName in infoDictionary;
      if attached {
        AttachWalked(request, t0);
      }
    }

    /** `request.SetRequest(AddRequestInternalWithDependencies(request.assetBundleName))`, after `request` joined the live set. */
    method AttachWalked(request: AL.AssetLoadRequest, ghost t0: Tables)
      requires Valid() && request !in t0.assets && request.assetBundleName in infoDictionary
      requires request.Snap() == AL.Snapshot(AL.Idle, null, None, None)
      requires Tabled() == t0.(assetLoading := t0.assetLoading + {request}, assets := t0.assets + {request})
      modifies this`requestMap, this`referencedCounts, this`requestQueue, this`bundles, this`dependencyLists,
        request`bundleRequest, request`state
      ensures Valid()
      ensures Registered(t0, request, true)
    {
      var b := AddRequestInternalWithDependencies(request.assetBundleName);
      Attach(request, b);
    }

    /** `_assetLoadingRequests.Add(request)`, for a request seen for the first time. */
    method Track(request: AL.AssetLoadRequest)
      requires Valid() && request !in assets && request.Valid() && request.bundleRequest == null
      modifies this`assetLoadingRequests, this`assets
      ensures Valid()
      ensures assetLoadingRequests == old(assetLoadingRequests) + {request} && assets == old(assets) + {request}
    {
      TrackCoherent(Tabled(), request);
      assetLoadingRequests := assetLoadingRequests + {request};
      assets := assets + {request};
    }

    /** `request.SetRequest(b)` on a registered request and a request of this manager. */
    method Attach(request: AL.AssetLoadRequest, b: BL.BundleLoadRequest)
      requires Valid() && request in assets && b in bundles
      modifies request`bundleRequest, request`state
      ensures Valid()
      ensures request.Snap() == old(request.Snap()).(bundleRequest := b, state := AL.WaitingDownload)
    {
      request.SetRequest(b);
    }

    /** AddRequest(string): AddRequest<T> for an asset name alone. */
    method AddRequestByName(assetName: string) returns (outcome: AddOutcome)
      requires Valid()
      modifies this`assetLoadingRequests, this`assets, this`requestMap, this`referencedCounts, this`requestQueue,
        this`bundles, this`dependencyLists
      ensures Valid()
      ensures AddEffect(old(Tabled()), Some(assetName), None, None, outcome)
      ensures outcome.UnknownBundle? || outcome.Added? ==> fresh(outcome.request)
    {
      if !ready {
        return NotReady;
      }
      outcome := AddRequest(Some(assetName), None, None);
    }

    /** AddDownloadRequest: AddRequest<T> for a bundle name alone, with no asset. */
    method AddDownloadRequest(assetBundleName: string) returns (outcome: AddOutcome)
      requires Valid()
      modifies this`assetLoadingRequests, this`assets, this`requestMap, this`referencedCounts, this`requestQueue,
        this`bundles, this`dependencyLists
      ensures Valid()
      ensures AddEffect(old(Tabled()), None, Some(assetBundleName), None, outcome)
      ensures outcome.UnknownBundle? || outcome.Added? ==> fresh(outcome.request)
    {
      if !ready {
        return NotReady;
      }
      outcome := AddRequest(None, Some(assetBundleName), None);
    }

    /** Each request registered for the i-th name is live and was made for that asset name. */
    ghost predicate ForAssetNames(outcomes: seq<AddOutcome>, names: seq<string>)
      reads this
    {
      && |outcomes| <= |names|
      && forall i :: 0 <= i < |outcomes| && (outcomes[i].UnknownBundle? || outcomes[i].Added?) ==>
           outcomes[i].request in assetLoadingRequests && outcomes[i].request.assetName == Some(names[i])
    }

    /** Each request registered for the i-th name is live and was made for that bundle name. */
    ghost predicate ForBundleNames(outcomes: seq<AddOutcome>, names: seq<string>)
      reads this
    {
      && |outcomes| <= |names|
      && forall i :: 0 <= i < |outcomes| && (outcomes[i].UnknownBundle? || outcomes[i].Added?) ==>
           outcomes[i].request in assetLoadingRequests && outcomes[i].request.assetBundleName == names[i]
    }

    /**
     * The collections `ts` a batch add went through: the i-th add, for the
     * i-th name (an asset name, or a bundle name when `byBundle`), took
     * `ts[i]` to `ts[i + 1]` with the outcome `outcomes[i]`, leaving its new
     * request, if any, in the state `snaps[i]`.
     */
    ghost predicate BatchSteps(ts: seq<Tables>, snaps: seq<AL.Snapshot>, cache: map<string, Asset>,
                               outcomes: seq<AddOutcome>, names: seq<string>, byBundle: bool)
      requires DependencyWalk.Ranked(infoDictionary, rank)
    {
      && |ts| == |outcomes| + 1 && |snaps| == |outcomes| && |outcomes| <= |names|
      && forall i :: 0 <= i < |outcomes| ==>
           AddEffectAt(ts[i], ts[i + 1], cache, snaps[i], if byBundle then None else Some(names[i]),
                       if byBundle then Some(names[i]) else None, None, outcomes[i])
    }

    /**
     * Along a batch add the live set only grows, so every request one of
     * its adds registered is live at the end, for its name.
     */
    lemma {:induction false} BatchLive(ts: seq<Tables>, snaps: seq<AL.Snapshot>, cache: map<string, Asset>,
                                       outcomes: seq<AddOutcome>, names: seq<string>, byBundle: bool)
      requires DependencyWalk.Ranked(infoDictionary, rank) && BatchSteps(ts, snaps, cache, outcomes, names, byBundle)
      ensures ts[0].assetLoading <= ts[|outcomes|].assetLoading && ts[0].bundles <= ts[|outcomes|].bundles
      ensures forall i :: 0 <= i < |outcomes| && (outcomes[i].UnknownBundle? || outcomes[i].Added?) ==>
        && outcomes[i].request in ts[|outcomes|].assetLoading
        && (if byBundle then outcomes[i].request.assetBundleName == names[i] else outcomes[i].request.assetName == Some(names[i]))
    {
      if |outcomes| > 0 {
        var n := |outcomes| - 1;
        assert BatchSteps(ts[..n + 1], snaps[..n], cache, outcomes[..n], names, byBundle) by {
          forall i | 0 <= i < n
            ensures AddEffectAt(ts[..n + 1][i], ts[..n + 1][i + 1], cache, snaps[..n][i], if byBundle then None else Some(names[i]),
                                if byBundle then Some(names[i]) else None, None, outcomes[..n][i])
          {
            assert ts[..n + 1][i] == ts[i] && ts[..n + 1][i + 1] == ts[i + 1];
          }
        }
        BatchLive(ts[..n + 1], snaps[..n], cache, outcomes[..n], names, byBundle);
        assert AddEffectAt(ts[n], ts[n + 1], cache, snaps[n], if byBundle then None else Some(names[n]),
                           if byBundle then Some(names[n]) else None, None, outcomes[n]);
      }
    }

    /**
     * AddRequests: AddRequestByName on each name in order, up to the first name
     * whose bundle the info map lacks, as the KeyNotFoundException ends the loop. Before the manager
     * is ready nothing changes; otherwise the i-th add took `ts[i]` to
     * `ts[i + 1]`, and every request registered for a name stays live,
     * with that asset name.
     */
    method AddRequests(assetNames: seq<string>) returns (outcomes: seq<AddOutcome>, ghost ts: seq<Tables>, ghost snaps: seq<AL.Snapshot>)
      requires Valid()
      modifies this`assetLoadingRequests, this`assets, this`requestMap, this`referencedCounts, this`requestQueue,
        this`bundles, this`dependencyLists
      ensures Valid()
      ensures !ready ==> outcomes == [] && Tabled() == old(Tabled())
      ensures ready ==> UpToThrow(outcomes, |assetNames|)
      ensures BatchSteps(ts, snaps, loadedAssets, outcomes, assetNames, false) && ts[0] == old(Tabled()) && ts[|outcomes|] == Tabled()
      ensures old(assetLoadingRequests) <= assetLoadingRequests && old(bundles) <= bundles
      ensures ForAssetNames(outcomes, assetNames)
    {
      if !ready {
        outcomes, ts, snaps := [], [Tabled()], [];
        return;
      }
      outcomes, ts, snaps := AddAssetNames(assetNames);
      BatchLive(ts, snaps, loadedAssets, outcomes, assetNames, false);
    }

    /** The loop of AddRequests, once the manager is ready. */
    method AddAssetNames(assetNames: seq<string>) returns (outcomes: seq<AddOutcome>, ghost ts: seq<Tables>, ghost snaps: seq<AL.Snapshot>)
      requires Valid() && ready
      modifies this`assetLoadingRequests, this`assets, this`requestMap, this`referencedCounts, this`requestQueue,
        this`bundles, this`dependencyLists
      ensures Valid()
      ensures UpToThrow(outcomes, |assetNames|)
      ensures BatchSteps(ts, snaps, loadedAssets, outcomes, assetNames, false) && ts[0] == old(Tabled()) && ts[|outcomes|] == Tabled()
    {
      outcomes, ts, snaps := [], [Tabled()], [];
      var i := 0;
      while i < |assetNames|
        invariant 0 <= i <= |assetNames| && i == |outcomes| && Valid()
        invariant forall k :: 0 <= k < i ==> !outcomes[k].UnknownBundle?
        invariant BatchSteps(ts, snaps, loadedAssets, outcomes, assetNames, false) && ts[0] == old(Tabled()) && ts[i] == Tabled()
      {
        var outcome := AddAssetName(assetNames, i);
        outcomes, ts, snaps := outcomes + [outcome], ts + [Tabled()], snaps + [SnapOf(outcome)];
        i := i + 1;
        if outcome.UnknownBundle? {
          break;
        }
      }
    }

    /** One turn of the AddRequests loop. */
    method AddAssetName(assetNames: seq<string>, i: nat)
      returns (outcome: AddOutcome)
      requires Valid() && ready && i < |assetNames|
      modifies this`assetLoadingRequests, this`assets, this`requestMap, this`referencedCounts, this`requestQueue,
        this`bundles, this`dependencyLists
      ensures Valid()
      ensures AddEffect(old(Tabled()), Some(assetNames[i]), None, None, outcome)
      ensures outcome.UnknownBundle? || outcome.Added? ==> fresh(outcome.request)
    {
      outcome := AddRequestByName(assetNames[i]);
    }

    /**
     * AddDownloadRequests: AddDownloadRequest on each name in order, up to the first name
     * the info map lacks, as the KeyNotFoundException ends the loop. Before the manager
     * is ready nothing changes; otherwise the i-th add took `ts[i]` to
     * `ts[i + 1]`, and every request registered for a name stays live,
     * with that bundle name.
     */
    method AddDownloadRequests(assetBundleNames: seq<string>) returns (outcomes: seq<AddOutcome>, ghost ts: seq<Tables>, ghost snaps: seq<AL.Snapshot>)
      requires Valid()
      modifies this`assetLoadingRequests, this`assets, this`requestMap, this`referencedCounts, this`requestQueue,
        this`bundles, this`dependencyLists
      ensures Valid()
      ensures !ready ==> outcomes == [] && Tabled() == old(Tabled())
      ensures ready ==> UpToThrow(outcomes, |assetBundleNames|)
      ensures BatchSteps(ts, snaps, loadedAssets, outcomes, assetBundleNames, true) && ts[0] == old(Tabled()) && ts[|outcomes|] == Tabled()
      ensures old(assetLoadingRequests) <= assetLoadingRequests && old(bundles) <= bundles
      ensures ForBundleNames(outcomes, assetBundleNames)
    {
      if !ready {
        outcomes, ts, snaps := [], [Tabled()], [];
        return;
      }
      outcomes, ts, snaps := AddBundleNames(assetBundleNames);
      BatchLive(ts, snaps, loadedAssets, outcomes, assetBundleNames, true);
    }

    /** The loop of AddDownloadRequests, once the manager is ready. */
    method AddBundleNames(assetBundleNames: seq<string>) returns (outcomes: seq<AddOutcome>, ghost ts: seq<Tables>, ghost snaps: seq<AL.Snapshot>)
      requires Valid() && ready
      modifies this`assetLoadingRequests, this`assets, this`requestMap, this`referencedCounts, this`requestQueue,
        this`bundles, this`dependencyLists
      ensures Valid()
      ensures UpToThrow(outcomes, |assetBundleNames|)
      ensures BatchSteps(ts, snaps, loadedAssets, outcomes, assetBundleNames, true) && ts[0] == old(Tabled()) && ts[|outcomes|] == Tabled()
    {
      outcomes, ts, snaps := [], [Tabled()], [];
      var i := 0;
      while i < |assetBundleNames|
        invariant 0 <= i <= |assetBundleNames| && i == |outcomes| && Valid()
        invariant forall k :: 0 <= k < i ==> !outcomes[k].UnknownBundle?
        invariant BatchSteps(ts, snaps, loadedAssets, outcomes, assetBundleNames, true) && ts[0] == old(Tabled()) && ts[i] == Tabled()
      {
        var outcome := AddBundleName(assetBundleNames, i);
        outcomes, ts, snaps := outcomes + [outcome], ts + [Tabled()], snaps + [SnapOf(outcome)];
        i := i + 1;
        if outcome.UnknownBundle? {
          break;
        }
      }
    }

    /** One turn of the AddDownloadRequests loop. */
    method AddBundleName(assetBundleNames: seq<string>, i: nat)
      returns (outcome: AddOutcome)
      requires Valid() && ready && i < |assetBundleNames|
      modifies this`assetLoadingRequests, this`assets, this`requestMap, this`referencedCounts, this`requestQueue,
        this`bundles, this`dependencyLists
      ensures Valid()
      ensures AddEffect(old(Tabled()), None, Some(assetBundleNames[i]), None, outcome)
      ensures outcome.UnknownBundle? || outcome.Added? ==> fresh(outcome.request)
    {
      outcome := AddDownloadRequest(assetBundleNames[i]);
    }

    /**
     * RemoveRequest: ignored before the manager is ready and for a request
     * that is not live; otherwise the request leaves the live set and the
     * release walk runs from its bundle name (for a name the info map lacks
     * it throws KeyNotFoundException, after the request left the live set).
     */
    method RemoveRequest(request: AL.AssetLoadRequest)
      requires Valid()
      modifies this`assetLoadingRequests, this`requestMap, this`referencedCounts, this`requestQueue,
        this`loadingRequests, this`downloadingRequests, bundles
      ensures Valid()
      ensures !ready || request !in old(assetLoadingRequests) ==> Tabled() == old(Tabled()) && unchanged(bundles)
      ensures ready && request in old(assetLoadingRequests) ==>
        && assetLoadingRequests == old(assetLoadingRequests) - {request}
        && if request.assetBundleName in infoDictionary then
             && Shrunk(old(Tabled()).(assetLoading := assetLoadingRequests), Tabled(), Walk(request.assetBundleName))
             && requestQueue == ReleasedQueue(old(requestQueue), old(requestMap), old(referencedCounts), Walk(request.assetBundleName))
             && BundleSnaps(bundles) == Disposing(old(BundleSnaps(bundles)), DroppedOf(old(requestMap), requestMap))
           else
             Tabled() == old(Tabled()).(assetLoading := assetLoadingRequests) && unchanged(bundles)
    {
      if !ready || request !in assetLoadingRequests {
        return;
      }
      Untrack(request);
      if request.assetBundleName in infoDictionary {
        RemoveRequestInternalWithDependencies(request.assetBundleName);
      }
    }

    /** `_assetLoadingRequests.Remove(request)`. */
    method Untrack(request: AL.AssetLoadRequest)
      requires Valid()
      modifies this`assetLoadingRequests
      ensures Valid() && assetLoadingRequests == old(assetLoadingRequests) - {request}
    {
      UntrackCoherent(Tabled(), {request});
      assetLoadingRequests := assetLoadingRequests - {request};
    }

    // ----- clearing -----

    /**
     * RemoveAllRequests, as written: the live set, both queues and the
     * loading set are emptied (the pending queue twice), every mapped
     * request is disposed and the map is emptied. The downloading set is
     * left as it was, so the requests in it stay there, disposed and Idle.
     */
    method RemoveAllRequests()
      requires Valid()
      modifies this`assetLoadingRequests, this`requestQueue, this`errorQueue, this`loadingRequests, this`requestMap,
        this`referencedCounts, requestMap.Values
      ensures Valid()
      ensures !ready ==> Tabled() == old(Tabled()) && unchanged(old(requestMap.Values))
      ensures ready ==> Tabled() == old(Tabled()).(assetLoading := {}, queue := [], errors := [], loading := {},
                                                   requests := map[], counts := map[])
      ensures ready ==> forall r :: r in old(requestMap.Values) ==> r.Snap() == BL.Disposed(old(r.Snap()))
      ensures ready ==> (IsDownloading() <==> old(downloadingRequests) != {})
    {
      if !ready {
        return;
      }
      ClearPending();
      DisposeMapped();
      ClearMap();
    }

    /**
     * RemoveAllRequests with the downloading set emptied as well: afterwards
     * nothing is downloading, loading, pending or failed.
     */
    method RemoveAllRequestsCorrected()
      requires Valid()
      modifies this`assetLoadingRequests, this`requestQueue, this`errorQueue, this`loadingRequests,
        this`downloadingRequests, this`requestMap, this`referencedCounts, requestMap.Values
      ensures Valid()
      ensures !ready ==> Tabled() == old(Tabled()) && unchanged(old(requestMap.Values))
      ensures ready ==> Tabled() == old(Tabled()).(assetLoading := {}, queue := [], errors := [], loading := {},
                                                   downloading := {}, requests := map[], counts := map[])
      ensures ready ==> forall r :: r in old(requestMap.Values) ==> r.Snap() == BL.Disposed(old(r.Snap()))
      ensures ready ==> !IsDownloading() && !IsLoading() && !HasError() && RequestCount() == 0
    {
      RemoveAllRequests();
      if ready {
        ClearDownloading();
      }
    }

    /** The `Clear()` calls on the live set, the two queues and the loading set. */
    method ClearPending()
      requires Valid()
      modifies this`assetLoadingRequests, this`requestQueue, this`errorQueue, this`loadingRequests
      ensures Valid()
      ensures Tabled() == old(Tabled()).(assetLoading := {}, queue := [], errors := [], loading := {})
    {
      ClearedCoherent(Tabled());
      assetLoadingRequests := {};
      requestQueue := [];
      errorQueue := [];
      loadingRequests := {};
    }

    /** `Dispose()` on every request in the map. */
    method DisposeMapped()
      requires Valid()
      modifies requestMap.Values
      ensures Valid() && Tabled() == old(Tabled())
      ensures forall r :: r in requestMap.Values ==> r.Snap() == BL.Disposed(old(r.Snap()))
    {
      DisposeEach(requestMap.Values);
    }

    /** `_requestMap.Clear()`, the counts going with the entries. */
    method ClearMap()
      requires Valid() && assetLoadingRequests == {} && requestQueue == [] && errorQueue == [] && loadingRequests == {}
      modifies this`requestMap, this`referencedCounts
      ensures Valid() && Tabled() == old(Tabled()).(requests := map[], counts := map[])
    {
      ClearedCoherent(Tabled());
      requestMap := map[];
      referencedCounts := map[];
    }

    /** `_downloadingRequests.Clear()`. */
    method ClearDownloading()
      requires Valid() && assetLoadingRequests == {} && requestQueue == [] && errorQueue == [] && loadingRequests == {}
      requires requestMap == map[] && referencedCounts == map[]
      modifies this`downloadingRequests
      ensures Valid() && Tabled() == old(Tabled()).(downloading := {})
    {
      ClearedCoherent(Tabled());
      downloadingRequests := {};
    }

    // ----- the status getters -----

    /** IsDownloading: some request is loading, downloading or pending. */
    function IsDownloading(): (r: bool)
      reads this
      ensures r <==> loadingRequests + downloadingRequests + Elems(requestQueue) != {}
    {
      assert |requestQueue| > 0 ==> requestQueue[0] in Elems(requestQueue);
      |loadingRequests| > 0 || |downloadingRequests| > 0 || |requestQueue| > 0
    }

    /** IsLoading: some asset request is live. */
    function IsLoading(): (r: bool)
      reads this
      ensures r <==> assetLoadingRequests != {}
    {
      |assetLoadingRequests| > 0
    }

    /** HasError: some request waits in the error queue. */
    function HasError(): (r: bool)
      reads this
      ensures r <==> errorQueue != []
    {
      |errorQueue| > 0
    }

    /** RequestCount: the sizes of the loading set, the pending queue and the error queue, added. */
    function RequestCount(): nat
      reads this
    {
      |loadingRequests| + |requestQueue| + |errorQueue|
    }

    /**
     * The three collections RequestCount adds up share no request and
     * repeat none, so it counts the requests loading, pending or failed
     * (downloading ones are left out).
     */
    lemma RequestCountCounts()
      requires Core()
      ensures RequestCount() == |loadingRequests + Elems(requestQueue) + Elems(errorQueue)|
    {
      CountedRequests(Tabled());
    }

    /**
     * AllDownloadingSize: the sizes of the downloading set, the loading set
     * and the pending queue, added in a `ulong` that wraps around.
     */
    method AllDownloadingSize() returns (total: nat)
      ensures total < ULongModulus
      ensures total == (SizeOf(downloadingRequests) + SizeOf(loadingRequests) + QueueSize(requestQueue)) % ULongModulus
    {
      total := SumSizes(downloadingRequests, 0);
      total := SumSizes(loadingRequests, total);
      total := SumQueue(requestQueue, total);
      ModAdd(SizeOf(downloadingRequests), SizeOf(loadingRequests));
      ModAdd(SizeOf(downloadingRequests) + SizeOf(loadingRequests), QueueSize(requestQueue));
    }

    /** GetCrc: the info map's CRC for the name, 0 for a name it lacks. */
    function GetCrc(assetBundleName: string): (crc: nat)
      ensures assetBundleName in infoDictionary ==> crc == infoDictionary[assetBundleName].manifestInfo.crc
      ensures assetBundleName !in infoDictionary ==> crc == 0
      ensures WellFormedInfos() ==> crc <= ManifestParser.UIntMax
    {
      if assetBundleName in infoDictionary then infoDictionary[assetBundleName].manifestInfo.crc else 0
    }

    /** GetSize: the info map's size for the name, 0 for a name it lacks. */
    function GetSize(assetBundleName: string): (size: nat)
      ensures assetBundleName in infoDictionary ==> size == infoDictionary[assetBundleName].size
      ensures assetBundleName !in infoDictionary ==> size == 0
    {
      if assetBundleName in infoDictionary then infoDictionary[assetBundleName].size else 0
    }

    /**
     * Every bundle request of the manager carries the size, CRC and hash
     * GetSize, GetCrc and the info map give for its name.
     */
    lemma InfoMatches()
      requires Valid()
      ensures forall b :: b in bundles ==> b.assetBundleName in infoDictionary
      ensures forall b :: b in bundles ==> b.size == GetSize(b.assetBundleName) && b.crc == GetCrc(b.assetBundleName)
      ensures forall b :: b in bundles ==> b.hash == infoDictionary[b.assetBundleName].manifestInfo.assetFileHash
    {
      forall b | b in bundles
        ensures b.assetBundleName in infoDictionary
        ensures b.size == GetSize(b.assetBundleName) && b.crc == GetCrc(b.assetBundleName)
        ensures b.hash == infoDictionary[b.assetBundleName].manifestInfo.assetFileHash
      {
        assert FromInfo(b);
      }
    }

    // ----- the frame -----

    /** SetErrorCallback: set or clear `_onError`. */
    method SetErrorCallback(callback: bool)
      modifies this`hasErrorCallback
      ensures hasErrorCallback == callback
    {
      hasErrorCallback := callback;
    }

    /**
     * What a promotion pass did, from the collections `t0` and the bundle
     * request states `s0` to `t1` and `s1`: only the queue and the active
     * sets changed; the queue is empty or the limit reached; the requests
     * taken from the front of the queue joined the active sets by their
     * cache test, and each of them was loaded with its dependency list.
     */
    ghost predicate PromotedPass(t0: Tables, t1: Tables, s0: map<BL.BundleLoadRequest, BL.Snapshot>,
                                 s1: map<BL.BundleLoadRequest, BL.Snapshot>,
                                 lists: map<BL.BundleLoadRequest, seq<BL.BundleLoadRequest>>, cached: (string, Hash128) -> bool)
    {
      && t1 == t0.(queue := t1.queue, loading := t1.loading, downloading := t1.downloading)
      && (t1.queue == [] || |t1.downloading| + |t1.loading| >= config.loadRequestMaxCount)
      && PassDone(t0.queue, t0.loading, t0.downloading, config.loadRequestMaxCount, ready, cached, t1.queue, t1.loading, t1.downloading)
      && s1 == Loading(s0, Elems(t0.queue) - Elems(t1.queue), lists, false)
    }

    /**
     * What a bundle tick did, from the collections `t1` and the bundle
     * request states `s1` to `t2` and `s2`: only the error queue and the
     * active sets changed; each active request stepped once on its poll;
     * the ones that ended left their set, and the failed ones joined the
     * error queue, the downloading set's first.
     */
    ghost predicate TickedPass(t1: Tables, t2: Tables, s1: map<BL.BundleLoadRequest, BL.Snapshot>,
                               s2: map<BL.BundleLoadRequest, BL.Snapshot>, poll: BL.BundleLoadRequest -> BL.Poll, now: real)
    {
      && t2 == t1.(errors := t2.errors, loading := t2.loading, downloading := t2.downloading)
      && (forall r :: r in t1.downloading + t1.loading ==>
            r in s1 && r in s2 && s2[r] == BL.Step(r.assetBundleName, r.Fetch(), s1[r], poll(r), now, Limits()))
      && t2.downloading <= t1.downloading && t2.loading <= t1.loading
      && (forall r :: r in t1.downloading && r in s2 ==> (r in t2.downloading <==> !EndedIn(s2[r])))
      && (forall r :: r in t1.loading && r in s2 ==> (r in t2.loading <==> !EndedIn(s2[r])))
      && FailuresQueuedIn(t1.errors, t2.errors, t1.downloading, t1.loading, s2)
    }

    /** The promotion pass, with its states before and after. */
    method PromotionPass(cached: (string, Hash128) -> bool) returns (ghost t1: Tables, ghost s1: map<BL.BundleLoadRequest, BL.Snapshot>)
      requires Valid()
      modifies this`requestQueue, this`loadingRequests, this`downloadingRequests, bundles
      ensures Valid() && t1 == Tabled() && s1 == BundleSnaps(bundles)
      ensures PromotedPass(old(Tabled()), t1, old(BundleSnaps(bundles)), s1, dependencyLists, cached)
    {
      UpdateAssetBundleLoadRequestQueue(cached);
      t1, s1 := Tabled(), BundleSnaps(bundles);
    }

    /** The bundle tick, with its states before and after. */
    method TickPass(poll: BL.BundleLoadRequest -> BL.Poll, now: real) returns (ghost t2: Tables, ghost s2: map<BL.BundleLoadRequest, BL.Snapshot>)
      requires Valid()
      modifies this`errorQueue, this`loadingRequests, this`downloadingRequests, this`errorNotifications,
        downloadingRequests, loadingRequests
      ensures Valid() && t2 == Tabled() && s2 == BundleSnaps(bundles)
      ensures TickedPass(old(Tabled()), t2, old(BundleSnaps(bundles)), s2, poll, now)
    {
      ghost var s1 := BundleSnaps(bundles);
      UpdateAssetBundleLoadRequest(poll, now);
      t2, s2 := Tabled(), BundleSnaps(bundles);
      FailuresQueuedSnaps(old(errorQueue), errorQueue, old(downloadingRequests), old(loadingRequests), s2);
    }

    /**
     * OnUpdate: nothing before the manager is ready; then the promotion
     * pass, the bundle tick and the asset tick, in that order. `t1`, `s1`
     * are the collections and the bundle request states after the
     * promotion pass, `t2`, `s2` after the bundle tick; `ok` is the asset
     * tick's. Each pass's contract holds between its states, and the asset
     * tick (whose requests no other pass touches) ticked each live asset
     * request from its state at the start.
     */
    method OnUpdate(cached: (string, Hash128) -> bool, poll: BL.BundleLoadRequest -> BL.Poll, now: real,
                    ext: AL.AssetLoadRequest -> AL.Extraction)
      returns (ok: bool, ghost t1: Tables, ghost s1: map<BL.BundleLoadRequest, BL.Snapshot>,
               ghost t2: Tables, ghost s2: map<BL.BundleLoadRequest, BL.Snapshot>)
      requires Valid()
      modifies this`requestQueue, this`errorQueue, this`loadingRequests, this`downloadingRequests,
        this`errorNotifications, this`loadedAssets, this`assetLoadingRequests, bundles,
        assets`state, assets`handle, assets`asset
      ensures Valid()
      ensures !ready ==> ok && Tabled() == old(Tabled()) && loadedAssets == old(loadedAssets) && unchanged(bundles, assets)
      ensures ready ==> PromotedPass(old(Tabled()), t1, old(BundleSnaps(bundles)), s1, dependencyLists, cached)
      ensures ready ==> TickedPass(t1, t2, s1, s2, poll, now)
      ensures ready ==> Tabled() == t2.(assetLoading := assetLoadingRequests)
      ensures ready ==> AssetPassed(old(assetLoadingRequests), old(SnapsOf(assetLoadingRequests)), old(loadedAssets), ext, ok)
    {
      if !ready {
        return true, Tabled(), BundleSnaps(bundles), Tabled(), BundleSnaps(bundles);
      }
      ok, t1, s1, t2, s2 := ReadyUpdate(cached, poll, now, ext);
    }

    /** OnUpdate once the manager is ready: the three passes. */
    method ReadyUpdate(cached: (string, Hash128) -> bool, poll: BL.BundleLoadRequest -> BL.Poll, now: real,
                       ext: AL.AssetLoadRequest -> AL.Extraction)
      returns (ok: bool, ghost t1: Tables, ghost s1: map<BL.BundleLoadRequest, BL.Snapshot>,
               ghost t2: Tables, ghost s2: map<BL.BundleLoadRequest, BL.Snapshot>)
      requires Valid() && ready
      modifies this`requestQueue, this`errorQueue, this`loadingRequests, this`downloadingRequests,
        this`errorNotifications, this`loadedAssets, this`assetLoadingRequests, bundles,
        assets`state, assets`handle, assets`asset
      ensures Valid()
      ensures PromotedPass(old(Tabled()), t1, old(BundleSnaps(bundles)), s1, dependencyLists, cached)
      ensures TickedPass(t1, t2, s1, s2, poll, now)
      ensures Tabled() == t2.(assetLoading := assetLoadingRequests)
      ensures AssetPassed(old(assetLoadingRequests), old(SnapsOf(assetLoadingRequests)), old(loadedAssets), ext, ok)
    {
      ghost var a0 := SnapsOf(assetLoadingRequests);
      t1, s1 := PromotionPass(cached);
      ok, t2, s2 := TickPasses(poll, now, ext, old(assetLoadingRequests), a0, old(loadedAssets));
    }

    /** The bundle tick and then the asset tick, from the live asset requests `live0`, their states `a0` and the cache `cache0`. */
    method TickPasses(poll: BL.BundleLoadRequest -> BL.Poll, now: real, ext: AL.AssetLoadRequest -> AL.Extraction,
                      ghost live0: set<AL.AssetLoadRequest>, ghost a0: map<AL.AssetLoadRequest, AL.Snapshot>,
                      ghost cache0: map<string, Asset>)
      returns (ok: bool, ghost t2: Tables, ghost s2: map<BL.BundleLoadRequest, BL.Snapshot>)
      requires Valid() && live0 == assetLoadingRequests && cache0 == loadedAssets && a0.Keys == assetLoadingRequests
      requires forall a :: a in assetLoadingRequests ==> a0[a] == a.Snap()
      modifies this`errorQueue, this`loadingRequests, this`downloadingRequests, this`errorNotifications,
        this`loadedAssets, this`assetLoadingRequests, downloadingRequests, loadingRequests,
        assets`state, assets`handle, assets`asset
      ensures Valid()
      ensures TickedPass(old(Tabled()), t2, old(BundleSnaps(bundles)), s2, poll, now)
      ensures Tabled() == t2.(assetLoading := assetLoadingRequests)
      ensures AssetPassed(live0, a0, cache0, ext, ok)
    {
      t2, s2 := TickPass(poll, now);
      ok := AssetPass(ext, live0, a0, cache0);
    }

    /**
     * What an asset tick over the live requests `s`, whose states were
     * `s0`, did with the cache `cache0`: each request ticked (or, when the
     * tick threw, possibly not); `ok` exactly when no two finished requests
     * clash, none is cached already and none lacks its handle; then the
     * assets are cached and the Done requests left the live set, and
     * otherwise the live set is as it was.
     */
    ghost predicate AssetPassed(s: set<AL.AssetLoadRequest>, s0: map<AL.AssetLoadRequest, AL.Snapshot>, cache0: map<string, Asset>,
                                ext: AL.AssetLoadRequest -> AL.Extraction, ok: bool)
      reads this, s, set a | a in s && a.bundleRequest != null :: a.bundleRequest
    {
      && (forall a :: a in s ==> a in s0 && (AssetTicked(a, s0[a], ext) || (!ok && a.Snap() == s0[a])))
      && (ok <==> KeysFresh(s, cache0) && NoneFault(s, s0))
      && (ok ==> Cached(s, cache0, loadedAssets))
      && (ok ==> assetLoadingRequests <= s && forall a :: a in s ==> (a in assetLoadingRequests <==> a.state != AL.Done))
      && (!ok ==> assetLoadingRequests == s)
    }

    /** The asset tick, from the states `s0` of the live requests. */
    method AssetPass(ext: AL.AssetLoadRequest -> AL.Extraction, ghost live0: set<AL.AssetLoadRequest>,
                     ghost s0: map<AL.AssetLoadRequest, AL.Snapshot>, ghost cache0: map<string, Asset>) returns (ok: bool)
      requires Valid() && live0 == assetLoadingRequests && cache0 == loadedAssets && s0.Keys == assetLoadingRequests
      requires forall a :: a in assetLoadingRequests ==> s0[a] == a.Snap()
      modifies this`loadedAssets, this`assetLoadingRequests,
        assetLoadingRequests`state, assetLoadingRequests`handle, assetLoadingRequests`asset
      ensures Valid()
      ensures AssetPassed(live0, s0, cache0, ext, ok)
    {
      SnapsOfIs(assetLoadingRequests, s0);
      ok := UpdateAssetLoadRequest(ext);
    }
  }
}
