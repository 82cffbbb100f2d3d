/**
 * AssetLoadRequest<T>: the four-state machine that waits for one bundle
 * request and then extracts one asset from the bundle.
 *
 * The engine's AssetBundleRequest (the asynchronous extraction) is replaced
 * by what a tick reads of it (`Extraction`); the generic type parameter and
 * the `as T` cast are folded into that reading (a missing asset and one of
 * another type both read as no asset).
 */
module AssetLoad {
  import opened Common
  import BundleLoad

  datatype State = Idle | WaitingDownload | WaitingLoadAsync | Done

  /**
   * The asynchronous extraction started on the downloaded bundle:
   * `LoadAssetAsync` or, with sub-assets, `LoadAssetWithSubAssetsAsync`.
   */
  datatype LoadHandle = LoadHandle(bundle: BundleLoad.AssetBundle, assetName: Option<string>, withSubAssets: bool)

  /** What a tick reads of the extraction: `isDone`, `progress` and `asset as T`. */
  datatype Extraction = Extraction(isDone: bool, progress: BundleLoad.Fraction, asset: Option<Asset>)

  /** The mutable fields of an asset request. */
  datatype Snapshot = Snapshot(
    state: State,
    bundleRequest: BundleLoad.BundleLoadRequest?,
    handle: Option<LoadHandle>,
    asset: Option<Asset>)

  // ----- Path.GetExtension and the necessity rule -----

  /** The directory and volume separators `Path.GetExtension` stops at. */
  predicate IsSeparator(c: char) {
    c == '/' || c == '\\' || c == ':'
  }

  /**
   * `Path.GetExtension`: from the last '.' after the last separator to the
   * end, or empty when there is none or the '.' is the last character.
   */
  function GetExtension(path: string): (e: string)
    ensures |e| <= |path| && e == path[|path| - |e|..]
    ensures e == [] || (e[0] == '.' && |e| >= 2)
  {
    ExtensionScan(path, |path|)
  }

  /** The scan of GetExtension over `path[..i]`, from the right. */
  function ExtensionScan(path: string, i: nat): (e: string)
    requires i <= |path|
    ensures |e| <= |path| && e == path[|path| - |e|..]
    ensures e == [] || (e[0] == '.' && |e| >= 2)
    decreases i
  {
    if i == 0 then ""
    else if path[i - 1] == '.' then (if i != |path| then path[i - 1..] else "")
    else if IsSeparator(path[i - 1]) then ""
    else ExtensionScan(path, i - 1)
  }

  /** `kUnnecessaryLoadExtensions`. */
  const UnnecessaryLoadExtensions: seq<string> := [".unity"]

  /** `IsNecessaryLoadAsset`: an asset name is given and its extension is not a scene's. */
  predicate IsNecessaryLoadAsset(assetName: Option<string>) {
    !IsNullOrEmpty(assetName) && GetExtension(assetName.value) !in UnnecessaryLoadExtensions
  }

  /** One step of the scan past an ordinary character. */
  lemma ScanPast(path: string, i: nat)
    requires 0 < i <= |path| && path[i - 1] != '.' && !IsSeparator(path[i - 1])
    ensures ExtensionScan(path, i) == ExtensionScan(path, i - 1)
  {
  }

  /** A name has the extension ".unity" exactly when it ends with ".unity". */
  lemma UnityExtension(path: string)
    ensures GetExtension(path) == ".unity" <==> EndsWith(path, ".unity")
  {
    var n := |path|;
    if EndsWith(path, ".unity") {
      var tail := path[n - 6..];
      assert tail == ".unity";
      assert path[n - 1] == tail[5] == 'y';
      assert path[n - 2] == tail[4] == 't';
      assert path[n - 3] == tail[3] == 'i';
      assert path[n - 4] == tail[2] == 'n';
      assert path[n - 5] == tail[1] == 'u';
      assert path[n - 6] == tail[0] == '.';
      ScanPast(path, n);
      ScanPast(path, n - 1);
      ScanPast(path, n - 2);
      ScanPast(path, n - 3);
      ScanPast(path, n - 4);
      assert ExtensionScan(path, n - 5) == tail;
    }
  }

  /** The necessity rule: false for a null or empty name or a ".unity" name, true otherwise. */
  lemma NecessityRule(assetName: Option<string>)
    ensures IsNecessaryLoadAsset(assetName) <==>
      assetName.Some? && assetName.value != "" && !EndsWith(assetName.value, ".unity")
  {
    if assetName.Some? {
      UnityExtension(assetName.value);
    }
  }

  // ----- the state machine on snapshots -----

  /**
   * How the fields hang together: a bundle request once attached, the
   * extraction wait only for a name that needs loading, an extraction
   * handle recording whether the with-sub-assets load was chosen, and an
   * asset only for a name that needs loading.
   */
  predicate Consistent(assetName: Option<string>, subAssetName: Option<string>, s: Snapshot) {
    && (s.state != Idle ==> s.bundleRequest != null)
    && (s.state == WaitingLoadAsync ==> IsNecessaryLoadAsset(assetName))
    && (s.handle.Some? ==>
          s.handle.value.assetName == assetName &&
          s.handle.value.withSubAssets == !IsNullOrEmpty(subAssetName))
    && (s.asset.Some? ==> IsNecessaryLoadAsset(assetName))
  }

  /**
   * The extraction wait with no handle: the bundle request was done without
   * a bundle, so `LoadAssetAsync` was never called on one and the handle
   * stayed null. `Update` then throws NullReferenceException at
   * `_assetBundleRequest.isDone`, every time, changing nothing.
   */
  predicate Faults(s: Snapshot) {
    s.state == WaitingLoadAsync && s.handle.None?
  }

  /**
   * `Update`, given the snapshot `b` of the attached bundle request (its
   * `isDone` and bundle) and the reading of the extraction.
   */
  function Step(assetName: Option<string>, subAssetName: Option<string>, s: Snapshot,
                b: BundleLoad.Snapshot, ext: Extraction): Snapshot
    requires BundleLoad.Consistent(b)
  {
    match s.state
    case Idle => s
    case Done => s
    case WaitingDownload =>
      if b.state != BundleLoad.Done then s
      else if IsNecessaryLoadAsset(assetName) then
        // the bundle request's forwarders return null when it holds no bundle
        s.(handle := if b.assetBundle.Some? then Some(LoadHandle(b.assetBundle.value, assetName, !IsNullOrEmpty(subAssetName)))
                     else None,
           state := WaitingLoadAsync)
      else s.(state := Done)
    case WaitingLoadAsync =>
      // the name needed loading when this state was entered, so the
      // sub-asset scan of the other branch is never reached
      if s.handle.None? then s
      else if ext.isDone then s.(asset := ext.asset, state := Done) else s
  }

  /** The `progress` getter, given the bundle request's progress and the extraction's. */
  function ProgressOf(s: Snapshot, bundleProgress: real, extractionProgress: real): real {
    match s.state
    case Idle => 0.0
    case Done => 1.0
    case _ =>
      var p0 := if s.bundleRequest != null then bundleProgress else 0.0;
      var p1 := if s.handle.Some? then extractionProgress else 0.0;
      (p0 + p1) / 2.0
  }

  // ----- properties -----

  /**
   * A tick keeps the fields consistent and never changes the bundle
   * request; the handle changes only when the extraction starts, so a
   * request that is done keeps the handle it had.
   */
  lemma StepKeepsConsistent(assetName: Option<string>, subAssetName: Option<string>, s: Snapshot,
                            b: BundleLoad.Snapshot, ext: Extraction)
    requires BundleLoad.Consistent(b) && Consistent(assetName, subAssetName, s)
    ensures Consistent(assetName, subAssetName, Step(assetName, subAssetName, s, b, ext))
    ensures Step(assetName, subAssetName, s, b, ext).bundleRequest == s.bundleRequest
    ensures Step(assetName, subAssetName, s, b, ext).handle != s.handle ==>
      s.state == WaitingDownload && Step(assetName, subAssetName, s, b, ext).state == WaitingLoadAsync
  {
  }

  /** Idle and Done are fixed points of a tick. */
  lemma FixedPoints(assetName: Option<string>, subAssetName: Option<string>, s: Snapshot,
                    b: BundleLoad.Snapshot, ext: Extraction)
    requires BundleLoad.Consistent(b)
    requires s.state == Idle || s.state == Done
    ensures Step(assetName, subAssetName, s, b, ext) == s
  {
  }

  /**
   * Waiting for the bundle: nothing happens until the bundle request is
   * done (so one in Error never releases the asset request); then the
   * extraction starts when the name needs loading, otherwise the request is
   * done at once. The extraction is the with-sub-assets one exactly when a
   * sub-asset name is given, and runs on the downloaded bundle; when the
   * bundle request holds none, there is no extraction.
   */
  lemma WaitingForBundle(assetName: Option<string>, subAssetName: Option<string>, s: Snapshot,
                         b: BundleLoad.Snapshot, ext: Extraction)
    requires BundleLoad.Consistent(b)
    requires s.state == WaitingDownload
    ensures var t := Step(assetName, subAssetName, s, b, ext);
      && (b.state != BundleLoad.Done ==> t == s)
      && (b.state == BundleLoad.Done && IsNecessaryLoadAsset(assetName) ==>
            t.state == WaitingLoadAsync && (t.handle.Some? <==> b.assetBundle.Some?) &&
            (t.handle.Some? ==>
               t.handle.value.bundle == b.assetBundle.value && t.handle.value.assetName == assetName &&
               (t.handle.value.withSubAssets <==> subAssetName.Some? && subAssetName.value != "")) &&
            t.asset == s.asset && t.bundleRequest == s.bundleRequest)
      && (b.state == BundleLoad.Done && !IsNecessaryLoadAsset(assetName) ==>
            t == s.(state := Done))
  {
  }

  /** Completion: once the extraction is done the request is Done with whatever asset it found, possibly none. */
  lemma Completion(assetName: Option<string>, subAssetName: Option<string>, s: Snapshot,
                   b: BundleLoad.Snapshot, ext: Extraction)
    requires BundleLoad.Consistent(b)
    requires s.state == WaitingLoadAsync && s.handle.Some?
    ensures var t := Step(assetName, subAssetName, s, b, ext);
      (ext.isDone ==> t.state == Done && t.asset == ext.asset && t.handle == s.handle) &&
      (!ext.isDone ==> t == s)
  {
  }

  /**
   * A bundle request done without a bundle strands an asset request whose
   * name needs loading: the next tick enters the extraction wait with no
   * handle, and from there every tick throws and nothing moves again; its
   * progress stays at one half (the bundle's 1, no extraction's 0).
   */
  lemma MissingBundleFaults(assetName: Option<string>, subAssetName: Option<string>, s: Snapshot,
                            b: BundleLoad.Snapshot, ext: Extraction, b2: BundleLoad.Snapshot, ext2: Extraction)
    requires BundleLoad.Consistent(b) && BundleLoad.Consistent(b2) && Consistent(assetName, subAssetName, s)
    requires s.state == WaitingDownload && b.state == BundleLoad.Done && b.assetBundle.None?
    requires IsNecessaryLoadAsset(assetName)
    ensures var t := Step(assetName, subAssetName, s, b, ext);
      Faults(t) && Step(assetName, subAssetName, t, b2, ext2) == t && ProgressOf(t, 1.0, 1.0) == 0.5
  {
  }

  /** Progress is 0 when Idle, 1 when Done, and in [0, 1] whenever both parts are. */
  lemma ProgressBounds(s: Snapshot, bundleProgress: real, extractionProgress: real)
    requires 0.0 <= bundleProgress <= 1.0 && 0.0 <= extractionProgress <= 1.0
    ensures 0.0 <= ProgressOf(s, bundleProgress, extractionProgress) <= 1.0
    ensures s.state == Idle ==> ProgressOf(s, bundleProgress, extractionProgress) == 0.0
    ensures s.state == Done ==> ProgressOf(s, bundleProgress, extractionProgress) == 1.0
  {
  }

  /** AssetLoadRequest<T>. */
  class AssetLoadRequest {
    const assetBundleName: string
    const assetName: Option<string>
    const subAssetName: Option<string>

    var state: State
    var bundleRequest: BundleLoad.BundleLoadRequest?
    var handle: Option<LoadHandle>
    var asset: Option<Asset>

    function Snap(): Snapshot
      reads this
    {
      Snapshot(state, bundleRequest, handle, asset)
    }

    ghost predicate Valid()
      reads this
    {
      Consistent(assetName, subAssetName, Snap())
    }

    constructor (assetBundleName: string, assetName: Option<string>, subAssetName: Option<string>)
      ensures Valid() && Snap() == Snapshot(Idle, null, None, None)
      ensures this.assetBundleName == assetBundleName && this.assetName == assetName
      ensures this.subAssetName == subAssetName
    {
      this.assetBundleName := assetBundleName;
      this.assetName := assetName;
      this.subAssetName := subAssetName;
      state := Idle;
      bundleRequest := null;
      handle := None;
      asset := None;
    }

    /** `isDone`. */
    predicate IsDone()
      reads this
      ensures IsDone() <==> state == Done
    {
      state == Done
    }

    /** `GetAsset`: an asset is only ever held for a name that needs loading. */
    function GetAsset(): (a: Option<Asset>)
      reads this
      requires Valid()
      ensures a.Some? ==> assetName.Some? && assetName.value != "" && !EndsWith(assetName.value, ".unity")
      ensures a == asset
    {
      NecessityRule(assetName);
      asset
    }

    /** `SetRequest`: attach the bundle request and wait for it. */
    method SetRequest(request: BundleLoad.BundleLoadRequest)
      requires Valid()
      modifies this`bundleRequest, this`state
      ensures Valid() && Snap() == old(Snap()).(bundleRequest := request, state := WaitingDownload)
    {
      bundleRequest := request;
      state := WaitingDownload;
    }

    /**
     * `progress`, given the extraction's progress: the average of the bundle
     * request's and the extraction's (0 for a part that is missing), 0 when
     * Idle and 1 when Done.
     */
    function Progress(extractionProgress: BundleLoad.Fraction): (p: real)
      reads this, bundleRequest
      requires Valid() && (bundleRequest != null ==> bundleRequest.Valid())
      ensures 0.0 <= p <= 1.0
      ensures state == Idle ==> p == 0.0
      ensures state == Done ==> p == 1.0
    {
      var p0 := if bundleRequest != null then bundleRequest.Progress() else 0.0;
      ProgressBounds(Snap(), p0, extractionProgress);
      ProgressOf(Snap(), p0, extractionProgress)
    }

    /**
     * `Update`; `thrown` when it throws NullReferenceException, which is
     * exactly in the extraction wait with no handle.
     */
    method Update(ext: Extraction) returns (thrown: bool)
      requires Valid() && (bundleRequest != null ==> bundleRequest.Valid())
      modifies this`state, this`handle, this`asset
      ensures Valid()
      ensures Snap() == Step(assetName, subAssetName, old(Snap()),
        if bundleRequest != null then bundleRequest.Snap() else BundleLoad.Initial, ext)
      ensures thrown <==> Faults(old(Snap()))
    {
      thrown := false;
      ghost var b := if bundleRequest != null then bundleRequest.Snap() else BundleLoad.Initial;
      StepKeepsConsistent(assetName, subAssetName, Snap(), b, ext);
      match state {
        case Idle =>
        case Done =>
        case WaitingDownload =>
          if bundleRequest.IsDone() {
            if IsNecessaryLoadAsset(assetName) {
              var withSubAssets := !IsNullOrEmpty(subAssetName);
              // LoadAssetAsync or LoadAssetWithSubAssetsAsync, null without a bundle
              handle := if bundleRequest.assetBundle.Some?
                then Some(LoadHandle(bundleRequest.assetBundle.value, assetName, withSubAssets)) else None;
              state := WaitingLoadAsync;
            } else {
              state := Done;
            }
          }
        case WaitingLoadAsync =>
          if handle.None? {
            return true;
          }
          if ext.isDone {
            if IsNecessaryLoadAsset(assetName) {
              asset := ext.asset;
              state := Done;
            } else {
              assert false;
            }
          }
      }
    }
  }
}
