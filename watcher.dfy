/**
 * The gallery watcher (watch-gallery.js): a debounced trigger that runs the
 * generator as a child process, at most one at a time.
 *
 * The pure part is a state machine over `WatchState`, driven by events:
 * file-change notifications and timer ticks (both carrying the clock
 * reading in milliseconds), a child process reporting `close` or `error`,
 * and a termination signal. The classes `GalleryWatcher` (the script's
 * module-level variables and the functions that update them) and
 * `SimpleWatcher` (the directory-watcher object) change their fields in
 * place and are proved to follow the state machine.
 */
module Watcher {
  import opened Wrappers
  import opened Text
  import opened Paths
  import opened Scanner

  /** The debounce delay in milliseconds. */
  const WatchDelay: nat := 1000

  /** The directory the watcher watches. */
  const AssetsDir: string := "./dist/assets"

  /** The watcher's own copy of the supported extensions. */
  const WatchedExtensions: seq<string> := [".jpg", ".jpeg", ".png", ".gif", ".webp"]

  /**
   * The callback's filter: a filename is reported and its extension,
   * lower-cased, is one of the supported ones.
   */
  predicate Forwards(filename: Option<string>) {
    filename.Some? && filename.value != "" && Includes(WatchedExtensions, ToLower(Extname(filename.value)))
  }

  /** The watcher reacts to exactly the file names the generator publishes as images. */
  lemma ForwardsExactlyImages(f: string)
    ensures Forwards(Some(f)) <==> IsImageFile(f)
    ensures !Forwards(None)
  {
    if f == "" {
      NoExtensionNotImage(f);
    } else {
      assert WatchedExtensions == SupportedExtensions;
    }
  }

  /** The empty name is never an image: its extension is empty. */
  lemma NoExtensionNotImage(f: string)
    requires |f| == 0
    ensures !IsImageFile(f)
  {
    assert f == "";
    ExtnameOfEmpty();
    EmptyNotSupported(ToLower(Extname(f)));
  }

  /** No supported extension is empty. */
  lemma EmptyNotSupported(e: string)
    requires |e| == 0
    ensures !Includes(SupportedExtensions, e)
  {
    IncludesIsMembership(SupportedExtensions, e);
    assert forall i :: 0 <= i < |SupportedExtensions| ==> |SupportedExtensions[i]| > 0;
  }

  /** A forwarded change re-arms the timer and does nothing else. */
  lemma ForwardedChange(s: WatchState, now: nat, filename: Option<string>)
    requires !s.stopped && Forwards(filename)
    ensures Step(s, Change(now, filename)) == Debounce(s, now)
  {
  }

  /**
   * The watcher's state. `deadline` is the due time of the pending
   * debounce timer (None when no timer is pending); `live` holds the update
   * processes that have not yet reported `close` or `error`; `dropped`
   * counts timer firings skipped because an update was running.
   */
  datatype WatchState = WatchState(
    stopped: bool,
    isUpdating: bool,
    deadline: Option<nat>,
    live: set<nat>,
    spawned: nat,
    dropped: nat)

  datatype Event =
    | Change(now: nat, filename: Option<string>)   // a notification from the directory watcher
    | Tick(now: nat)                               // the clock reaches `now`
    | ChildClose(child: nat, code: int)            // update process `child` exits with `code`
    | ChildError(child: nat)                       // update process `child` fails to start or run
    | Signal                                       // SIGINT or SIGTERM

  /** Nothing running, nothing pending. */
  const Idle: WatchState := WatchState(false, false, None, {}, 0, 0)

  /** handleFileChange: cancel the pending timer and arm a new one. */
  function Debounce(s: WatchState, now: nat): WatchState {
    s.(deadline := Some(now + WatchDelay))
  }

  /** executeUpdate: skip when an update is running, otherwise start one. */
  function Execute(s: WatchState): WatchState {
    if s.isUpdating then s.(dropped := s.dropped + 1)
    else s.(isUpdating := true, live := s.live + {s.spawned}, spawned := s.spawned + 1)
  }

  /** The `close` and `error` handlers: the busy flag is cleared whatever the exit code. */
  function Exited(s: WatchState, child: nat): WatchState {
    if child in s.live then s.(isUpdating := false, live := s.live - {child}) else s
  }

  /** The timer fires when the clock reaches its due time. */
  function Fire(s: WatchState, now: nat): WatchState {
    if s.deadline.Some? && s.deadline.value <= now then Execute(s.(deadline := None)) else s
  }

  /** The signal handlers: stop watching, cancel the pending timer, exit. */
  function ShutDown(s: WatchState): WatchState {
    s.(stopped := true, deadline := None)
  }

  function Step(s: WatchState, e: Event): WatchState {
    if s.stopped then s
    else match e
      case Change(now, filename) => if Forwards(filename) then Debounce(s, now) else s
      case Tick(now) => Fire(s, now)
      case ChildClose(child, _) => Exited(s, child)
      case ChildError(child) => Exited(s, child)
      case Signal => ShutDown(s)
  }

  function Run(s: WatchState, es: seq<Event>): WatchState
    decreases |es|
  {
    if es == [] then s else Run(Step(s, es[0]), es[1..])
  }

  /**
   * main's start: exit with code 1 (None) when the asset directory or the
   * generator script is missing; otherwise run one update straight away.
   */
  function Launch(assetsExist: bool, scriptExists: bool): (r: Option<WatchState>)
    ensures r.Some? <==> assetsExist && scriptExists
    ensures r.Some? ==> Inv(r.value) && r.value.isUpdating && r.value.spawned == 1 && r.value.deadline.None?
  {
    if !assetsExist || !scriptExists then None else Some(Execute(Idle))
  }

  /** The busy flag is up exactly while one update process is live, and never two are. */
  ghost predicate Inv(s: WatchState) {
    && (s.isUpdating <==> s.live != {})
    && (forall c :: c in s.live ==> c < s.spawned)
    && (forall c, d :: c in s.live && d in s.live ==> c == d)
  }

  lemma StepPreservesInv(s: WatchState, e: Event)
    requires Inv(s)
    ensures Inv(Step(s, e))
  {
    if !s.stopped && (e.Tick? && s.deadline.Some? && s.deadline.value <= e.now) && !s.isUpdating {
      assert s.live == {};
    }
  }

  /** Whatever happens, at most one update process runs at a time. */
  lemma {:induction false} RunPreservesInv(s: WatchState, es: seq<Event>)
    requires Inv(s)
    ensures Inv(Run(s, es))
    decreases |es|
  {
    if es != [] {
      StepPreservesInv(s, es[0]);
      RunPreservesInv(Step(s, es[0]), es[1..]);
    }
  }

  /**
   * A burst of forwarded changes leaves one pending timer, due one delay
   * after the last change, and starts nothing.
   */
  /** Every event of the trace is a change notification the filter forwards. */
  predicate AllForwarded(es: seq<Event>)
    decreases |es|
  {
    es == [] || (es[0].Change? && Forwards(es[0].filename) && AllForwarded(es[1..]))
  }

  lemma {:induction false} BurstCoalesces(s: WatchState, es: seq<Event>)
    requires !s.stopped && es != [] && AllForwarded(es)
    ensures es[|es| - 1].Change?
    ensures Run(s, es) == s.(deadline := Some(es[|es| - 1].now + WatchDelay))
    decreases |es|
  {
    var e := es[0];
    assert e == Change(e.now, e.filename);
    ForwardedChange(s, e.now, e.filename);
    var s1 := Debounce(s, e.now);
    assert Run(s, es) == Run(s1, es[1..]);
    if |es| > 1 {
      var rest := es[1..];
      BurstCoalesces(s1, rest);
      assert rest[|rest| - 1] == es[|es| - 1];
    }
  }

  /** A tick before the due time changes nothing. */
  lemma EarlyTickIgnored(s: WatchState, now: nat)
    requires s.deadline.None? || now < s.deadline.value
    ensures Step(s, Tick(now)) == s
  {
  }

  /**
   * When the timer comes due, the pending timer is gone and either one new
   * update starts or, when one is running, the trigger is dropped.
   */
  lemma DueTickStartsOrDrops(s: WatchState, now: nat)
    requires Inv(s) && !s.stopped && s.deadline.Some? && s.deadline.value <= now
    ensures Step(s, Tick(now)).deadline.None?
    ensures s.isUpdating ==> Step(s, Tick(now)) == s.(deadline := None, dropped := s.dropped + 1)
    ensures !s.isUpdating ==>
      && Step(s, Tick(now)).isUpdating
      && Step(s, Tick(now)).live == {s.spawned}
      && Step(s, Tick(now)).spawned == s.spawned + 1
  {
    if !s.isUpdating {
      assert s.live == {};
    }
  }

  /** After a signal nothing changes any more and no timer is pending. */
  lemma {:induction false} StoppedStaysStopped(s: WatchState, es: seq<Event>)
    requires s.stopped
    ensures Run(s, es) == s
    decreases |es|
  {
    if es != [] {
      StoppedStaysStopped(s, es[1..]);
    }
  }

  /** How many timer ticks a trace holds. */
  function Ticks(es: seq<Event>): nat
    decreases |es|
  {
    if es == [] then 0 else (if es[0].Tick? then 1 else 0) + Ticks(es[1..])
  }

  /**
   * Updates are started only by timer firings: every started or dropped
   * update is paid for by a tick, so a trace with no ticks starts nothing.
   */
  lemma {:induction false} UpdatesNeedTicks(s: WatchState, es: seq<Event>)
    ensures Run(s, es).spawned >= s.spawned
    ensures Run(s, es).spawned + Run(s, es).dropped <= s.spawned + s.dropped + Ticks(es)
    decreases |es|
  {
    if es != [] {
      UpdatesNeedTicks(Step(s, es[0]), es[1..]);
    }
  }

  /** Quiet: not stopped, nothing running, nothing pending. */
  predicate Quiet(s: WatchState) {
    !s.stopped && !s.isUpdating && s.live == {} && s.deadline.None?
  }

  lemma RunCons(s: WatchState, e: Event, es: seq<Event>)
    ensures Run(s, [e] + es) == Run(Step(s, e), es)
  {
    assert ([e] + es)[1..] == es;
  }

  /**
   * Two image changes 200 ms apart regenerate once, one delay after the
   * second: the tick one delay after the first finds the timer not yet due.
   */
  lemma CloseChangesRegenerateOnce(s: WatchState, t: nat, f: string)
    requires Quiet(s) && IsImageFile(f)
    ensures var r := Run(s, [Change(t, Some(f)), Change(t + 200, Some(f)), Tick(t + WatchDelay), Tick(t + 200 + WatchDelay)]);
      r.spawned == s.spawned + 1 && r.dropped == s.dropped && r.deadline.None?
  {
    ForwardsExactlyImages(f);
    var e1, e2, e3, e4 := Change(t, Some(f)), Change(t + 200, Some(f)), Tick(t + WatchDelay), Tick(t + 200 + WatchDelay);
    ForwardedChange(s, t, Some(f));
    var s1 := Debounce(s, t);
    ForwardedChange(s1, t + 200, Some(f));
    var s2 := Debounce(s1, t + 200);
    var s4 := Step(s2, e4);
    assert Step(s2, e3) == s2;
    RunCons(s4, e4, []);
    RunCons(s2, e3, [e4]);
    RunCons(s1, e2, [e3, e4]);
    RunCons(s, e1, [e2, e3, e4]);
    assert [e1] + [e2, e3, e4] == [e1, e2, e3, e4];
    assert [e2] + [e3, e4] == [e2, e3, e4];
    assert [e3] + [e4] == [e3, e4];
    assert [e4] + [] == [e4];
  }

  /**
   * Two image changes 1500 ms apart, with the first update finishing in
   * between, regenerate twice.
   */
  lemma FarChangesRegenerateTwice(s: WatchState, t: nat, f: string, code: int)
    requires Quiet(s) && IsImageFile(f)
    ensures var r := Run(s, [Change(t, Some(f)), Tick(t + WatchDelay), ChildClose(s.spawned, code),
                             Change(t + 1500, Some(f)), Tick(t + 1500 + WatchDelay)]);
      r.spawned == s.spawned + 2 && r.dropped == s.dropped && r.isUpdating
  {
    ForwardsExactlyImages(f);
    var e1, e2, e3, e4, e5 := Change(t, Some(f)), Tick(t + WatchDelay), ChildClose(s.spawned, code),
                              Change(t + 1500, Some(f)), Tick(t + 1500 + WatchDelay);
    ForwardedChange(s, t, Some(f));
    var s1 := Step(s, e1);
    var s2 := Step(s1, e2);
    assert s2.live == {s.spawned} && s2.spawned == s.spawned + 1 && s2.deadline.None?;
    var s3 := Step(s2, e3);
    assert s3.live == {} && !s3.isUpdating;
    ForwardedChange(s3, t + 1500, Some(f));
    var s4 := Step(s3, e4);
    var s5 := Step(s4, e5);
    assert s5.spawned == s.spawned + 2;
    RunCons(s4, e5, []);
    RunCons(s3, e4, [e5]);
    RunCons(s2, e3, [e4, e5]);
    RunCons(s1, e2, [e3, e4, e5]);
    RunCons(s, e1, [e2, e3, e4, e5]);
    assert [e1] + [e2, e3, e4, e5] == [e1, e2, e3, e4, e5];
    assert [e2] + [e3, e4, e5] == [e2, e3, e4, e5];
    assert [e3] + [e4, e5] == [e3, e4, e5];
    assert [e4] + [e5] == [e4, e5];
    assert [e5] + [] == [e5];
  }

  /**
   * A change that comes due while the previous update still runs is
   * dropped, and nothing picks it up once that update finishes.
   */
  lemma BusyTriggerIsLost(s: WatchState, t: nat, f: string, code: int)
    requires Quiet(s) && IsImageFile(f)
    ensures var r := Run(s, [Change(t, Some(f)), Tick(t + WatchDelay), Change(t + 1500, Some(f)),
                             Tick(t + 1500 + WatchDelay), ChildClose(s.spawned, code)]);
      r.spawned == s.spawned + 1 && r.dropped == s.dropped + 1 && Quiet(r)
  {
    ForwardsExactlyImages(f);
    var e1, e2, e3, e4, e5 := Change(t, Some(f)), Tick(t + WatchDelay), Change(t + 1500, Some(f)),
                              Tick(t + 1500 + WatchDelay), ChildClose(s.spawned, code);
    ForwardedChange(s, t, Some(f));
    var s1 := Step(s, e1);
    var s2 := Step(s1, e2);
    assert s2.live == {s.spawned} && s2.isUpdating && s2.deadline.None?;
    ForwardedChange(s2, t + 1500, Some(f));
    var s3 := Step(s2, e3);
    var s4 := Step(s3, e4);
    assert s4.dropped == s.dropped + 1 && s4.live == {s.spawned} && s4.deadline.None?;
    var s5 := Step(s4, e5);
    assert s5.live == {};
    RunCons(s4, e5, []);
    RunCons(s3, e4, [e5]);
    RunCons(s2, e3, [e4, e5]);
    RunCons(s1, e2, [e3, e4, e5]);
    RunCons(s, e1, [e2, e3, e4, e5]);
    assert [e1] + [e2, e3, e4, e5] == [e1, e2, e3, e4, e5];
    assert [e2] + [e3, e4, e5] == [e2, e3, e4, e5];
    assert [e3] + [e4, e5] == [e3, e4, e5];
    assert [e4] + [e5] == [e4, e5];
    assert [e5] + [] == [e5];
  }

  /**
   * The directory watcher after events took the script from state `s` to
   * state `s2`: stopped by the signal that stopped the script, untouched
   * otherwise.
   */
  function FilesAfter(s: WatchState, s2: WatchState, w: DirWatch): DirWatch {
    if !s.stopped && s2.stopped then StopWatch(w) else w
  }

  /**
   * The script's module-level variables (`watchTimeout`, `isUpdating`)
   * together with what the model tracks about child processes, and the
   * functions that update them.
   */
  class GalleryWatcher {
    /** The directory watcher `main` creates and starts; the signal handlers stop it. */
    const files: SimpleWatcher
    var stopped: bool
    var isUpdating: bool
    var watchTimeout: Option<nat>
    var live: set<nat>
    var spawned: nat
    var dropped: nat

    function State(): WatchState
      reads this
    {
      WatchState(stopped, isUpdating, watchTimeout, live, spawned, dropped)
    }

    /**
     * main, once both files exist: the initial update is started, then the
     * directory watcher is created and started (`dirExists` and
     * `watchFails` as for SimpleWatcher.WatchDirectory).
     */
    constructor Launched(dirExists: bool, watchFails: bool)
      ensures State() == Launch(true, true).value
      ensures fresh(files) && files.State() == StartWatch(NewDirWatch(AssetsDir), dirExists, watchFails)
    {
      stopped, isUpdating, watchTimeout, live, spawned, dropped := false, true, None, {0}, 1, 0;
      files := new SimpleWatcher(AssetsDir);
      new;
      files.Start(dirExists, watchFails);
    }

    method HandleFileChange(now: nat)
      modifies this
      ensures State() == Debounce(old(State()), now)
    {
      watchTimeout := Some(now + WatchDelay);
    }

    method ExecuteUpdate()
      modifies this
      ensures State() == Execute(old(State()))
    {
      if isUpdating {
        dropped := dropped + 1;
        return;
      }
      isUpdating := true;
      live := live + {spawned};
      spawned := spawned + 1;
    }

    method OnChildExit(child: nat)
      modifies this
      ensures State() == Exited(old(State()), child)
    {
      if child in live {
        isUpdating := false;
        live := live - {child};
      }
    }

    method OnTick(now: nat)
      modifies this
      ensures State() == Fire(old(State()), now)
    {
      if watchTimeout.Some? && watchTimeout.value <= now {
        watchTimeout := None;
        ExecuteUpdate();
      }
    }

    /** The SIGINT and SIGTERM handlers: stop the directory watcher, clear the timer, exit. */
    method OnSignal()
      modifies this, files
      ensures State() == ShutDown(old(State()))
      ensures files.State() == StopWatch(old(files.State()))
    {
      files.Stop();
      stopped := true;
      watchTimeout := None;
    }

    /** Deliver one event. */
    method Deliver(e: Event)
      modifies this, files
      ensures State() == Step(old(State()), e)
      ensures files.State() == FilesAfter(old(State()), State(), old(files.State()))
    {
      if stopped {
        return;
      }
      match e
      case Change(now, filename) =>
        if Forwards(filename) {
          HandleFileChange(now);
        }
      case Tick(now) => OnTick(now);
      case ChildClose(child, _) => OnChildExit(child);
      case ChildError(child) => OnChildExit(child);
      case Signal => OnSignal();
    }

    /** Deliver a trace of events in order. */
    method DeliverAll(es: seq<Event>)
      modifies this, files
      ensures State() == Run(old(State()), es)
      ensures files.State() == FilesAfter(old(State()), State(), old(files.State()))
    {
      var i := 0;
      while i < |es|
        invariant 0 <= i <= |es|
        invariant Run(State(), es[i..]) == Run(old(State()), es)
        invariant old(State()).stopped ==> State().stopped
        invariant files.State() == FilesAfter(old(State()), State(), old(files.State()))
      {
        assert es[i..][1..] == es[i + 1..];
        Deliver(es[i]);
        i := i + 1;
      }
    }
  }

  /**
   * A SimpleWatcher's fields: the watched directory, the open watch
   * handles by directory, the watching flag; `closed` records the handles
   * closed so far and `nextHandle` numbers new ones.
   */
  datatype DirWatch = DirWatch(
    directory: string,
    watchers: map<string, nat>,
    isWatching: bool,
    closed: set<nat>,
    nextHandle: nat)

  /** A fresh SimpleWatcher on `directory`. */
  function NewDirWatch(directory: string): DirWatch {
    DirWatch(directory, map[], false, {}, 0)
  }

  /**
   * watchDirectory: nothing for a missing directory; when fs.watch throws
   * the error is logged and nothing is registered.
   */
  function WatchDir(w: DirWatch, dir: string, dirExists: bool, watchFails: bool): DirWatch {
    if !dirExists || watchFails then w
    else w.(watchers := w.watchers[dir := w.nextHandle], nextHandle := w.nextHandle + 1)
  }

  /** start: a no-op when already watching. */
  function StartWatch(w: DirWatch, dirExists: bool, watchFails: bool): DirWatch {
    if w.isWatching then w else WatchDir(w.(isWatching := true), w.directory, dirExists, watchFails)
  }

  /** stop: close every open handle and forget them all. */
  function StopWatch(w: DirWatch): DirWatch {
    w.(isWatching := false, closed := w.closed + w.watchers.Values, watchers := map[])
  }

  /** Open handles are numbered below `nextHandle`, distinct, and not closed. */
  ghost predicate HandlesValid(w: DirWatch) {
    && (forall d :: d in w.watchers ==> w.watchers[d] < w.nextHandle && w.watchers[d] !in w.closed)
    && (forall h :: h in w.closed ==> h < w.nextHandle)
    && (forall d, e :: d in w.watchers && e in w.watchers && w.watchers[d] == w.watchers[e] ==> d == e)
  }

  lemma WatchOperationsKeepHandlesValid(w: DirWatch, dir: string, dirExists: bool, watchFails: bool)
    requires HandlesValid(w)
    ensures HandlesValid(NewDirWatch(w.directory))
    ensures HandlesValid(WatchDir(w, dir, dirExists, watchFails))
    ensures HandlesValid(StartWatch(w, dirExists, watchFails))
    ensures HandlesValid(StopWatch(w))
  {
    var w2 := StopWatch(w);
    forall h | h in w2.closed ensures h < w2.nextHandle {
      if h !in w.closed {
        var d :| d in w.watchers && w.watchers[d] == h;
      }
    }
  }

  /**
   * watchDirectory registers a new handle, one not already open, under the
   * directory exactly when the directory exists and the watch succeeds;
   * otherwise nothing changes.
   */
  lemma WatchDirRegistersOnSuccess(w: DirWatch, dir: string, dirExists: bool, watchFails: bool)
    requires HandlesValid(w)
    ensures !dirExists || watchFails ==> WatchDir(w, dir, dirExists, watchFails) == w
    ensures dirExists && !watchFails ==>
      && WatchDir(w, dir, dirExists, watchFails).watchers == w.watchers[dir := w.nextHandle]
      && w.nextHandle !in w.watchers.Values
      && w.nextHandle !in w.closed
  {
  }

  /** Starting twice registers one watcher: the second start does nothing. */
  lemma StartIsIdempotent(w: DirWatch, dirExists: bool, watchFails: bool)
    ensures StartWatch(StartWatch(w, dirExists, watchFails), dirExists, watchFails) == StartWatch(w, dirExists, watchFails)
  {
  }

  /** Starting a fresh watcher opens one handle, on its directory, exactly when the watch succeeds. */
  lemma FreshStartWatchesDirectory(directory: string, dirExists: bool, watchFails: bool)
    ensures var w := StartWatch(NewDirWatch(directory), dirExists, watchFails);
      && w.isWatching
      && (dirExists && !watchFails ==> w.watchers == map[directory := 0])
      && (!dirExists || watchFails ==> w.watchers == map[])
  {
  }

  /** After stop, no handle is open and every handle that was open is closed. */
  lemma StopClosesEverything(w: DirWatch)
    ensures StopWatch(w).watchers == map[] && !StopWatch(w).isWatching
    ensures forall d :: d in w.watchers ==> w.watchers[d] in StopWatch(w).closed
    ensures w.closed <= StopWatch(w).closed
  {
  }

  /** The directory-watcher object. */
  class SimpleWatcher {
    var directory: string
    var watchers: map<string, nat>
    var isWatching: bool
    var closed: set<nat>
    var nextHandle: nat

    function State(): DirWatch
      reads this
    {
      DirWatch(directory, watchers, isWatching, closed, nextHandle)
    }

    constructor (dir: string)
      ensures State() == NewDirWatch(dir)
    {
      directory, watchers, isWatching, closed, nextHandle := dir, map[], false, {}, 0;
    }

    /** `dirExists` and `watchFails` stand for fs.existsSync and a throwing fs.watch. */
    method WatchDirectory(dir: string, dirExists: bool, watchFails: bool)
      modifies this
      ensures State() == WatchDir(old(State()), dir, dirExists, watchFails)
    {
      if !dirExists {
        return;
      }
      if watchFails {
        return;
      }
      watchers := watchers[dir := nextHandle];
      nextHandle := nextHandle + 1;
    }

    method Start(dirExists: bool, watchFails: bool)
      modifies this
      ensures State() == StartWatch(old(State()), dirExists, watchFails)
    {
      if isWatching {
        return;
      }
      isWatching := true;
      WatchDirectory(directory, dirExists, watchFails);
    }

    /** Closes the open handles one at a time, then clears the table. */
    method Stop()
      modifies this
      ensures State() == StopWatch(old(State()))
    {
      isWatching := false;
      var open := watchers.Values;
      ghost var closedBefore := closed;
      while open != {}
        invariant directory == old(directory) && watchers == old(watchers)
        invariant !isWatching && nextHandle == old(nextHandle)
        invariant open <= watchers.Values
        invariant closed == closedBefore + (watchers.Values - open)
        decreases open
      {
        var h :| h in open;
        closed := closed + {h};
        open := open - {h};
      }
      assert watchers.Values - open == watchers.Values;
      watchers := map[];
    }
  }
}
