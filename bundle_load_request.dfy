/**
 * AssetBundleLoadRequest: the six-state download machine for one bundle.
 *
 * The engine's UnityWebRequest is replaced by what one tick observes of it
 * (`Poll`), `Time.time` by a clock value `now`, and the manager's static
 * retry limit and timeout by `Limits`. Every state-changing method is proved
 * equal to a pure function on a `Snapshot` of the fields, and the promised
 * properties are lemmas about those functions.
 */
module BundleLoad {
  import opened Common
  import opened BundleInfo

  datatype State = Idle | WaitingDependencies | WaitingRequestWWW | LoadingWWW | Done | Error

  /** A float the engine keeps in [0, 1] (download progress). */
  type Fraction = r: real | 0.0 <= r <= 1.0

  /** The web request a fetch issues: the bundle's URL, its expected hash and CRC. */
  datatype WebRequest = WebRequest(url: string, hash: Hash128, crc: nat)

  /** The decoded bundle a finished web request yields; only its identity matters. */
  datatype AssetBundle = AssetBundle(id: nat)

  /**
   * What a tick reads from the in-flight web request: `isDone`, its `error`
   * text (null or empty on success), `downloadProgress`, and the bundle
   * `DownloadHandlerAssetBundle.GetContent` hands back (null, `None`, when
   * the downloaded data does not decode as a bundle).
   */
  datatype Poll = Poll(isDone: bool, error: Option<string>, downloadProgress: Fraction, content: Option<AssetBundle>)

  /** `AssetBundleManager.TimeoutRetryLimit` and `AssetBundleManager.TimeoutSeconds`. */
  datatype Limits = Limits(timeoutRetryLimit: int, timeoutSeconds: real)

  /**
   * The mutable fields of a request. Its reference count and its dependency
   * list are kept by the manager, which is the only code that writes them:
   * the count under the request's name, the list under the request itself.
   */
  datatype Snapshot = Snapshot(
    state: State,
    www: Option<WebRequest>,
    progress: real,
    assetBundle: Option<AssetBundle>,
    requestedTime: real,
    retriedCount: int,
    error: Option<string>)

  /** A freshly constructed request. */
  const Initial: Snapshot := Snapshot(Idle, None, 0.0, None, 0.0, 0, None)

  /**
   * How the fields hang together: a bundle only in Done (a Done request
   * may hold none, when the content did not decode), an error text
   * (never empty) exactly in Error, a web request whenever one is in
   * flight and only in the states that follow a fetch.
   */
  predicate Consistent(s: Snapshot) {
    && 0.0 <= s.progress <= 1.0
    && s.retriedCount >= 0
    && (s.assetBundle.Some? ==> s.state == Done)
    && (s.state == Error <==> s.error.Some?)
    && (s.error.Some? ==> s.error.value != "")
    && (s.state == LoadingWWW ==> s.www.Some?)
    && (s.www.Some? ==> s.state == LoadingWWW || s.state == Done || s.state == Error)
  }

  /** `Load`, given the dependency list: only an Idle request moves, to the dependency wait when it has dependencies. */
  function Loaded(s: Snapshot, dependencies: Option<seq<BundleLoadRequest>>): Snapshot {
    if s.state != Idle then s
    else if dependencies.Some? && |dependencies.value| > 0 then s.(state := WaitingDependencies)
    else s.(state := WaitingRequestWWW)
  }

  /**
   * The private `Retry`: restamp the clock, clear progress and error, drop the
   * web request and go back to waiting for a fetch. (The branch that would
   * resume an in-flight fetch tests the progress just set to 0 and is dead.)
   */
  function Retried(s: Snapshot, now: real): Snapshot {
    s.(requestedTime := now, progress := 0.0, error := None, state := WaitingRequestWWW,
       www := None, retriedCount := s.retriedCount + 1)
  }

  /** `Update`: one tick of the machine. */
  function Step(name: string, fetch: WebRequest, s: Snapshot, poll: Poll, now: real, limits: Limits): Snapshot {
    match s.state
    case WaitingDependencies =>
      // the `return` inside the ForEach lambda only leaves the lambda
      s.(state := WaitingRequestWWW)
    case WaitingRequestWWW =>
      s.(www := Some(fetch), requestedTime := now, state := LoadingWWW)
    case LoadingWWW =>
      if s.www.None? then s
      else
        var s1 := if s.progress < poll.downloadProgress
          then s.(requestedTime := now, progress := poll.downloadProgress) else s;
        if poll.isDone then
          if IsNullOrEmpty(poll.error) then s1.(assetBundle := poll.content, state := Done)
          else if s1.retriedCount >= limits.timeoutRetryLimit then s1.(error := poll.error, state := Error)
          else Retried(s1, now)
        else if now - s1.requestedTime >= limits.timeoutSeconds then
          if s1.retriedCount >= limits.timeoutRetryLimit then
            s1.(error := Some("timeout:" + name), state := Error, www := None)
          else Retried(s1, now)
        else s1
    case _ => s
  }

  /** `Dispose`: back to Idle with no bundle, no web request, no error and no retries; progress is kept. */
  function Disposed(s: Snapshot): Snapshot {
    s.(assetBundle := None, www := None, state := Idle, retriedCount := 0, error := None)
  }

  /** The `progress` getter on a snapshot. */
  function ProgressOf(s: Snapshot): real {
    match s.state
    case Done => 1.0
    case Idle => 0.0
    case WaitingDependencies => 0.0
    case _ => s.progress
  }

  // ----- properties of the state machine -----

  /** Every operation keeps the fields consistent. */
  lemma OperationsKeepConsistent(name: string, fetch: WebRequest, s: Snapshot, poll: Poll, now: real, limits: Limits,
                                  dependencies: Option<seq<BundleLoadRequest>>)
    requires Consistent(s)
    ensures Consistent(Step(name, fetch, s, poll, now, limits))
    ensures Consistent(Loaded(s, dependencies))
    ensures Consistent(Disposed(s))
    ensures s.state == LoadingWWW ==> Consistent(Retried(s, now))
  {
  }

  /** `Load` moves only from Idle, to WaitingDependencies exactly when the list is non-null and non-empty. */
  lemma LoadChoosesWait(s: Snapshot, dependencies: Option<seq<BundleLoadRequest>>)
    ensures s.state != Idle ==> Loaded(s, dependencies) == s
    ensures s.state == Idle ==>
      (Loaded(s, dependencies).state == WaitingDependencies <==> dependencies.Some? && dependencies.value != [])
    ensures s.state == Idle ==>
      (Loaded(s, dependencies).state == WaitingRequestWWW <==> dependencies.None? || dependencies.value == [])
    ensures Loaded(s, dependencies).(state := s.state) == s
  {
  }

  /**
   * The dependency wait does not wait: whatever the dependencies' states,
   * the next tick moves on to WaitingRequestWWW and changes nothing else.
   */
  lemma DependencyWaitDoesNotBlock(name: string, fetch: WebRequest, s: Snapshot, poll: Poll, now: real, limits: Limits)
    requires s.state == WaitingDependencies
    ensures Step(name, fetch, s, poll, now, limits) == s.(state := WaitingRequestWWW)
  {
  }

  /** Starting a fetch issues exactly the bundle's web request and stamps the clock. */
  lemma FetchStart(name: string, fetch: WebRequest, s: Snapshot, poll: Poll, now: real, limits: Limits)
    requires s.state == WaitingRequestWWW
    ensures var t := Step(name, fetch, s, poll, now, limits);
      t.state == LoadingWWW && t.www == Some(fetch) && t.requestedTime == now &&
      t.(www := s.www, requestedTime := s.requestedTime, state := s.state) == s
  {
  }

  /** Idle, Done and Error are fixed points of a tick. */
  lemma RestingStates(name: string, fetch: WebRequest, s: Snapshot, poll: Poll, now: real, limits: Limits)
    requires s.state == Idle || s.state == Done || s.state == Error
    ensures Step(name, fetch, s, poll, now, limits) == s
  {
  }

  /**
   * Progress: while a download is running, a tick either keeps it going with
   * progress raised to the larger of the old value and the reported one, or
   * finishes it (Done or Error) likewise, or retries from 0. The clock is
   * restamped only when progress strictly rises or the request retries.
   */
  lemma ProgressNeverFalls(name: string, fetch: WebRequest, s: Snapshot, poll: Poll, now: real, limits: Limits)
    requires s.state == LoadingWWW && s.www.Some?
    ensures var t := Step(name, fetch, s, poll, now, limits);
      var high := if s.progress < poll.downloadProgress then poll.downloadProgress else s.progress;
      (t.state == WaitingRequestWWW && t.progress == 0.0 && t.requestedTime == now &&
       t.retriedCount == s.retriedCount + 1) ||
      (t.state != WaitingRequestWWW && t.progress == high && s.progress <= t.progress &&
       t.retriedCount == s.retriedCount &&
       (t.requestedTime != s.requestedTime ==> s.progress < t.progress && t.requestedTime == now))
  {
  }

  /** The retry counter only grows, by one, and only while it is below the limit. */
  lemma RetryBound(name: string, fetch: WebRequest, s: Snapshot, poll: Poll, now: real, limits: Limits)
    requires 0 <= s.retriedCount
    requires s.retriedCount <= limits.timeoutRetryLimit || s.retriedCount == 0
    ensures var t := Step(name, fetch, s, poll, now, limits);
      (t.retriedCount == s.retriedCount || t.retriedCount == s.retriedCount + 1) &&
      (t.retriedCount == s.retriedCount + 1 ==> s.retriedCount < limits.timeoutRetryLimit) &&
      (t.retriedCount <= limits.timeoutRetryLimit || t.retriedCount == 0)
  {
  }

  /**
   * A tick ends in Error only from a running download whose retries are used
   * up: with the transport's message when the request finished with an error,
   * with "timeout:" and the bundle name (and the request dropped) when it
   * stalled for the timeout period.
   */
  lemma ErrorOnlyAtLimit(name: string, fetch: WebRequest, s: Snapshot, poll: Poll, now: real, limits: Limits)
    requires s.state != Error
    requires Step(name, fetch, s, poll, now, limits).state == Error
    ensures s.state == LoadingWWW && s.www.Some?
    ensures s.retriedCount >= limits.timeoutRetryLimit
    ensures var t := Step(name, fetch, s, poll, now, limits);
      (poll.isDone && !IsNullOrEmpty(poll.error) && t.error == poll.error) ||
      (!poll.isDone && now - t.requestedTime >= limits.timeoutSeconds &&
       t.error == Some("timeout:" + name) && t.www.None?)
  {
  }

  /**
   * A download that finishes without an error text ends in Done holding
   * exactly what GetContent handed back, which may be no bundle at all.
   */
  lemma FinishTakesContent(name: string, fetch: WebRequest, s: Snapshot, poll: Poll, now: real, limits: Limits)
    requires s.state == LoadingWWW && s.www.Some?
    requires poll.isDone && IsNullOrEmpty(poll.error)
    ensures var t := Step(name, fetch, s, poll, now, limits);
      t.state == Done && t.assetBundle == poll.content && t.www == s.www && t.error == s.error &&
      t.retriedCount == s.retriedCount
  {
  }

  /** A failure or stall below the limit retries instead of failing. */
  lemma RetryBelowLimit(name: string, fetch: WebRequest, s: Snapshot, poll: Poll, now: real, limits: Limits)
    requires s.state == LoadingWWW && s.www.Some?
    requires s.retriedCount < limits.timeoutRetryLimit
    requires (poll.isDone && !IsNullOrEmpty(poll.error)) ||
             (!poll.isDone && s.progress >= poll.downloadProgress && now - s.requestedTime >= limits.timeoutSeconds)
    ensures Step(name, fetch, s, poll, now, limits) ==
      Retried(if s.progress < poll.downloadProgress then s.(requestedTime := now, progress := poll.downloadProgress) else s, now)
    ensures Step(name, fetch, s, poll, now, limits).state == WaitingRequestWWW
  {
  }

  /** A retry always lands in WaitingRequestWWW with no web request, progress 0, no error and one more retry. */
  lemma RetryResets(s: Snapshot, now: real)
    ensures var t := Retried(s, now);
      t.state == WaitingRequestWWW && t.www.None? && t.progress == 0.0 && t.error.None? &&
      t.retriedCount == s.retriedCount + 1 && t.requestedTime == now &&
      t.assetBundle == s.assetBundle
  {
  }

  /** Dispose resets, keeps progress and the clock, and doing it twice is doing it once. */
  lemma DisposeIdempotent(s: Snapshot)
    ensures var t := Disposed(s);
      t.state == Idle && t.retriedCount == 0 && t.error.None? && t.assetBundle.None? && t.www.None? &&
      t.progress == s.progress && t.requestedTime == s.requestedTime
    ensures Disposed(Disposed(s)) == Disposed(s)
  {
  }

  /** The reported progress lies in [0, 1]: 1 in Done, 0 before a fetch is wanted. */
  lemma ProgressBounds(s: Snapshot)
    requires Consistent(s)
    ensures 0.0 <= ProgressOf(s) <= 1.0
    ensures s.state == Done ==> ProgressOf(s) == 1.0
    ensures s.state == Idle || s.state == WaitingDependencies ==> ProgressOf(s) == 0.0
    ensures s.state != Done && s.state != Idle && s.state != WaitingDependencies ==> ProgressOf(s) == s.progress
  {
  }

  /** AssetBundleLoadRequest. */
  class BundleLoadRequest {
    const assetBundleName: string
    const hash: Hash128
    /** `ulong size`. */
    const size: nat
    /** `uint crc`. */
    const crc: nat
    const helper: Helper

    var error: Option<string>
    var state: State
    var www: Option<WebRequest>
    var progress: real
    var assetBundle: Option<AssetBundle>
    var requestedTime: real
    var retriedCount: int
    /** How many web requests this object has issued. */
    ghost var fetchCount: nat

    function Snap(): Snapshot
      reads this
    {
      Snapshot(state, www, progress, assetBundle, requestedTime, retriedCount, error)
    }

    ghost predicate Valid()
      reads this
    {
      Consistent(Snap())
    }

    /** The web request a fetch issues: `GetAssetBundle(helper.GetUrl(name), hash, crc)`. */
    function Fetch(): WebRequest {
      WebRequest(helper.getUrl(assetBundleName), hash, crc)
    }

    /** A request for the bundle `info` describes: its name, size, CRC and asset-file hash. */
    constructor (helper: Helper, info: Info)
      requires info.manifestInfo.crc <= ManifestParser.UIntMax
      ensures Valid() && Snap() == Initial
      ensures assetBundleName == info.assetBundleName && hash == info.manifestInfo.assetFileHash
      ensures size == info.size && crc == info.manifestInfo.crc && this.helper == helper
      ensures fetchCount == 0
    {
      assetBundleName := info.assetBundleName;
      hash := info.manifestInfo.assetFileHash;
      size := info.size;
      crc := info.manifestInfo.crc;
      this.helper := helper;
      error := None;
      state := Idle;
      www := None;
      progress := 0.0;
      assetBundle := None;
      requestedTime := 0.0;
      retriedCount := 0;
      fetchCount := 0;
    }

    /** `isDone`: the state is Done; a bundle is held only then. */
    predicate IsDone()
      reads this
      requires Valid()
      ensures IsDone() <==> state == Done
      ensures assetBundle.Some? ==> IsDone()
    {
      state == Done
    }

    /** `isError`: an error text is set exactly when the state is Error. */
    predicate IsError()
      reads this
      requires Valid()
      ensures IsError() <==> state == Error
      ensures IsError() <==> error.Some?
    {
      state == Error
    }

    /** `progress`: a value in [0, 1], 1 once done and 0 before a fetch is wanted. */
    function Progress(): (p: real)
      reads this
      requires Valid()
      ensures 0.0 <= p <= 1.0
      ensures state == Done ==> p == 1.0
      ensures state == Idle || state == WaitingDependencies ==> p == 0.0
    {
      ProgressBounds(Snap());
      match state
      case Done => 1.0
      case Idle => 0.0
      case WaitingDependencies => 0.0
      case _ => progress
    }

    /** `Load`, with the dependency list the manager keeps for this request. */
    method Load(dependencies: Option<seq<BundleLoadRequest>>)
      requires Valid()
      modifies this`state
      ensures Valid() && Snap() == Loaded(old(Snap()), dependencies)
    {
      if state != Idle {
        return;
      }
      if dependencies.Some? && |dependencies.value| > 0 {
        state := WaitingDependencies;
      } else {
        state := WaitingRequestWWW;
      }
    }

    /** The private `Retry`, called from a running download; `wwwIsDone` is the web request's `isDone`. */
    method Retry(now: real, wwwIsDone: bool)
      requires Valid() && state == LoadingWWW
      modifies this`requestedTime, this`progress, this`error, this`state, this`www, this`retriedCount
      ensures Valid() && Snap() == Retried(old(Snap()), now)
    {
      requestedTime := now;
      progress := 0.0;
      error := None;
      if progress > 0.0 && www.Some? && !wwwIsDone {
        assert false;
      } else {
        state := WaitingRequestWWW;
        if www.Some? {
          www := None;
        }
      }
      retriedCount := retriedCount + 1;
    }

    method Update(poll: Poll, now: real, limits: Limits)
      requires Valid()
      modifies this`state, this`www, this`progress, this`assetBundle, this`requestedTime,
        this`retriedCount, this`error, this`fetchCount
      ensures Valid() && Snap() == Step(assetBundleName, Fetch(), old(Snap()), poll, now, limits)
      ensures fetchCount == old(fetchCount) + (if old(state) == WaitingRequestWWW then 1 else 0)
    {
      OperationsKeepConsistent(assetBundleName, Fetch(), Snap(), poll, now, limits, None);
      match state {
        case WaitingDependencies =>
          state := WaitingRequestWWW;
        case WaitingRequestWWW =>
          www := Some(Fetch());
          fetchCount := fetchCount + 1;
          requestedTime := now;
          state := LoadingWWW;
        case LoadingWWW =>
          if www.None? {
            return;
          }
          if progress < poll.downloadProgress {
            requestedTime := now;
            progress := poll.downloadProgress;
          }
          if poll.isDone {
            if IsNullOrEmpty(poll.error) {
              assetBundle := poll.content;
              state := Done;
            } else {
              if retriedCount >= limits.timeoutRetryLimit {
                error := poll.error;
                state := Error;
              } else {
                Retry(now, poll.isDone);
              }
            }
          } else if now - requestedTime >= limits.timeoutSeconds {
            if retriedCount >= limits.timeoutRetryLimit {
              error := Some("timeout:" + assetBundleName);
              state := Error;
              www := None;
            } else {
              Retry(now, poll.isDone);
            }
          }
        case _ =>
      }
    }

    method Dispose()
      requires Valid()
      modifies this`assetBundle, this`www, this`state, this`retriedCount, this`error
      ensures Valid() && Snap() == Disposed(old(Snap()))
    {
      if www.Some? {
        www := None;
      }
      assetBundle := None;
      state := Idle;
      retriedCount := 0;
      error := None;
    }
  }
}
