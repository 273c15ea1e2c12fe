/** src/window.rs: which top-level windows on the foreground window's monitor
    are minimized, and the minimize requests issued for them.

    The operating system is an abstract `Desktop` snapshot passed in: what each
    attribute query of each window answers, what each monitor-info query
    answers, and the order in which `EnumWindows` presents the top-level
    windows. The `ShowWindow` requests the utility issues are recorded in an
    append-only log kept by a `WindowManager` object. */
module Window {
  import opened Wrappers
  import opened Win32

  // ---------------------------------------------------------------------------
  // Constants of the Win32 headers used by the filter and the executor.

  const WS_CHILD: bv32 := 0x4000_0000
  const WS_VISIBLE: bv32 := 0x1000_0000
  const WS_EX_APPWINDOW: bv32 := 0x0004_0000
  const SW_SHOWMINNOACTIVE: int := 7

  /** The class names of shell-owned windows that are never minimized. */
  const IgnoreClasses: seq<string> :=
    ["Progman", "Button", "ApplicationFrameWindow", "Windows.UI.Core.CoreWindow"]

  /** `WINDOW_STYLE::contains`: every bit of `flag` is set in `style`. */
  predicate HasStyle(style: bv32, flag: bv32) {
    (style & flag) == flag
  }

  // ---------------------------------------------------------------------------
  // The OS snapshot.

  /** The windows crate's error values, by the way they are built. */
  datatype Error =
    | EmptyError      // `Error::empty()`
    | LastError       // `Error::from_win32()`, from a BOOL-returning call
    | HResultError    // a failed HRESULT, from `DwmGetWindowAttribute`

  /** The part of `WINDOWINFO` the filter reads. */
  datatype WindowInfo = WindowInfo(rcWindow: Rect, dwStyle: bv32)

  /** What the OS answers, at evaluation time, to each query about one window. */
  datatype WindowSnapshot = WindowSnapshot(
    nearestMonitor: HMonitor,     // MonitorFromWindow(w, MONITOR_DEFAULTTONEAREST)
    text: string,                 // what GetWindowTextW copies; empty when it returns 0
    info: Option<WindowInfo>,     // GetWindowInfo; None when it fails
    owner: Option<Hwnd>,          // GetWindow(w, GW_OWNER); None when it fails
    exStyle: bv32,                // GetWindowLongW(w, GWL_EXSTYLE) reinterpreted as u32
    iconic: bool,                 // IsIconic
    cloaked: Option<u32>,         // DwmGetWindowAttribute(DWMWA_CLOAKED); None when it fails
    className: string)            // what GetClassNameW copies; empty when it returns 0

  /** The part of `MONITORINFO` the filter reads: the full area and the work area. */
  datatype MonitorInfo = MonitorInfo(rcMonitor: Rect, rcWork: Rect)

  /** The OS at the instant of one hide transaction. */
  datatype Desktop = Desktop(
    foreground: Hwnd,                      // GetForegroundWindow
    windows: map<Hwnd, WindowSnapshot>,    // the windows that still exist
    monitors: map<HMonitor, MonitorInfo>,  // GetMonitorInfoW succeeds exactly on these
    zOrder: seq<Hwnd>,                     // the windows EnumWindows presents, in order
    enumFails: bool)                       // EnumWindows itself reports failure

  /** How a handle that no longer names a window answers every query. */
  const Destroyed := WindowSnapshot(0, "", None, None, 0, false, None, "")

  function Snapshot(d: Desktop, h: Hwnd): WindowSnapshot {
    if h in d.windows then d.windows[h] else Destroyed
  }

  function MonitorFromWindow(d: Desktop, h: Hwnd): HMonitor {
    Snapshot(d, h).nearestMonitor
  }

  // ---------------------------------------------------------------------------
  // The query wrappers of src/window.rs.

  /** `get_window_title`: an error when GetWindowTextW copies nothing. */
  function GetWindowTitle(w: WindowSnapshot): (r: Result<string, Error>)
    ensures r.Err? <==> |w.text| == 0
    ensures r.Ok? ==> r.value == w.text && |r.value| > 0
  {
    if |w.text| == 0 then Err(LastError) else Ok(w.text)
  }

  /** `get_window_classname`: an error when GetClassNameW copies nothing. */
  function GetWindowClassname(w: WindowSnapshot): (r: Result<string, Error>)
    ensures r.Err? <==> |w.className| == 0
    ensures r.Ok? ==> r.value == w.className && |r.value| > 0
  {
    if |w.className| == 0 then Err(LastError) else Ok(w.className)
  }

  /** `get_window_info`: the error of a failed GetWindowInfo is propagated. */
  function GetWindowInfo(w: WindowSnapshot): (r: Result<WindowInfo, Error>)
    ensures r.Err? <==> w.info.None?
    ensures r.Ok? ==> Some(r.value) == w.info
  {
    match w.info
    case Some(info) => Ok(info)
    case None => Err(LastError)
  }

  /** `is_window_cloaked`: cloaked when the attribute is non-zero; the
      error of a failed DwmGetWindowAttribute is propagated. */
  function IsWindowCloaked(w: WindowSnapshot): (r: Result<bool, Error>)
    ensures r.Err? <==> w.cloaked.None?
    ensures r.Ok? ==> (r.value <==> w.cloaked.value != 0)
  {
    match w.cloaked
    case Some(c) => Ok(c != 0)
    case None => Err(HResultError)
  }

  /** `get_monitor_info`: an empty error when GetMonitorInfoW fails. */
  function GetMonitorInfo(d: Desktop, m: HMonitor): (r: Result<MonitorInfo, Error>)
    ensures r.Err? <==> m !in d.monitors
    ensures r.Ok? ==> m in d.monitors && r.value == d.monitors[m]
  {
    if m in d.monitors then Ok(d.monitors[m]) else Err(EmptyError)
  }

  // ---------------------------------------------------------------------------
  // The eligibility filter, `window_should_hide`.

  /** The OS queries `window_should_hide` makes, in the order it makes them. */
  datatype Query =
    | QueryMonitor | QueryText | QueryInfo | QueryOwner | QueryExStyle
    | QueryIconic | QueryCloaked | QueryMonitorInfo | QueryClassName

  const QueryOrder: seq<Query> :=
    [QueryMonitor, QueryText, QueryInfo, QueryOwner, QueryExStyle,
     QueryIconic, QueryCloaked, QueryMonitorInfo, QueryClassName]

  /** The queries whose failure is propagated as `Err` by `?`. */
  const PropagatingQueries: set<Query> := {QueryText, QueryInfo, QueryCloaked, QueryMonitorInfo}

  /** The decision on one window and the queries made to reach it. */
  datatype Verdict = Verdict(result: Result<bool, Error>, queries: seq<Query>)

  /** Steps 1 to 6 of the chain, stated as one conjunction: every check before
      the class-name check passes. */
  ghost predicate PassesChecksBeforeClassName(d: Desktop, window: Hwnd, monitor: HMonitor) {
    var w := Snapshot(d, window);
    && w.nearestMonitor == monitor
    && |w.text| > 0
    && w.info.Some?
    && HasStyle(w.info.value.dwStyle, WS_VISIBLE)
    && !HasStyle(w.info.value.dwStyle, WS_CHILD)
    && !w.iconic
    && (IsInvalid(w.owner.GetOr(0)) || HasStyle(w.exStyle, WS_EX_APPWINDOW))
    && w.cloaked == Some(0)
    && monitor in d.monitors
    && Overlap(d.monitors[monitor].rcWork, w.info.value.rcWindow)
  }

  /** Reference definition of an eligible window: it passes every check, and
      its class name (empty when that query fails) is not on the deny-list. */
  ghost predicate Eligible(d: Desktop, window: Hwnd, monitor: HMonitor) {
    PassesChecksBeforeClassName(d, window, monitor)
    && Snapshot(d, window).className !in IgnoreClasses
  }

  /** Reference definition of the error outcome: some propagating query fails
      after every check before it has passed. */
  ghost predicate QueryFails(d: Desktop, window: Hwnd, monitor: HMonitor) {
    var w := Snapshot(d, window);
    w.nearestMonitor == monitor
    && (|w.text| == 0
        || w.info.None?
        || (&& HasStyle(w.info.value.dwStyle, WS_VISIBLE)
            && !HasStyle(w.info.value.dwStyle, WS_CHILD)
            && !w.iconic
            && (IsInvalid(w.owner.GetOr(0)) || HasStyle(w.exStyle, WS_EX_APPWINDOW))
            && (w.cloaked.None? || (w.cloaked == Some(0) && monitor !in d.monitors))))
  }

  /** `window_should_hide(window, monitor)`: the ordered, short-circuiting
      chain of checks; the first check that rejects gives `Ok(false)`, a failed
      title, window-info, cloak or monitor-info query gives `Err`, and a failed
      class-name query is skipped. */
  function WindowShouldHide(d: Desktop, window: Hwnd, monitor: HMonitor): (v: Verdict)
    // the monitor check comes first and decides before any other query
    ensures Snapshot(d, window).nearestMonitor != monitor ==> v == Verdict(Ok(false), [QueryMonitor])
    // the queries made are a non-empty prefix of the source order
    ensures 0 < |v.queries| && v.queries <= QueryOrder
    // an empty title is an error, so the `is_empty` check never rejects
    ensures Snapshot(d, window).nearestMonitor == monitor && |Snapshot(d, window).text| == 0
            ==> v == Verdict(Err(LastError), [QueryMonitor, QueryText])
    ensures v.result == Ok(true) <==> Eligible(d, window, monitor)
    ensures v.result.Err? <==> QueryFails(d, window, monitor)
    // an error always comes from the last query made, and that is a propagating one
    ensures v.result.Err? ==> v.queries[|v.queries| - 1] in PropagatingQueries
    // ... and it is the query that failed: the chain stops at the failing `?`
    ensures v.result.Err? ==>
              var last := v.queries[|v.queries| - 1];
              && (last == QueryText ==> |Snapshot(d, window).text| == 0)
              && (last == QueryInfo ==> Snapshot(d, window).info.None?)
              && (last == QueryCloaked ==> Snapshot(d, window).cloaked.None?)
              && (last == QueryMonitorInfo ==> monitor !in d.monitors)
    // every propagating query made before the last one succeeded, so the
    // chain stops at the first failing `?`
    ensures |v.queries| > 2 ==> |Snapshot(d, window).text| > 0
    ensures |v.queries| > 3 ==> Snapshot(d, window).info.Some?
    ensures |v.queries| > 7 ==> Snapshot(d, window).cloaked.Some?
    ensures |v.queries| > 8 ==> monitor in d.monitors
    // a window is hidden only after every query has been made
    ensures v.result == Ok(true) ==> v.queries == QueryOrder
    // a failed class-name query does not reject the window
    ensures |Snapshot(d, window).className| == 0
            ==> (v.result == Ok(true) <==> PassesChecksBeforeClassName(d, window, monitor))
  {
    var w := Snapshot(d, window);
    // the queries made once each check has been reached
    var afterMonitor := [QueryMonitor];
    var afterTitle := afterMonitor + [QueryText];
    var afterInfo := afterTitle + [QueryInfo];
    var afterIconic := afterInfo + [QueryOwner, QueryExStyle, QueryIconic];
    var afterCloak := afterIconic + [QueryCloaked];
    var afterMonitorInfo := afterCloak + [QueryMonitorInfo];
    var afterClassName := afterMonitorInfo + [QueryClassName];
    if monitor != w.nearestMonitor then Verdict(Ok(false), afterMonitor)
    else match GetWindowTitle(w)
    case Err(e) => Verdict(Err(e), afterTitle)
    case Ok(text) =>
      if |text| == 0 then Verdict(Ok(false), afterTitle)
      else match GetWindowInfo(w)
      case Err(e) => Verdict(Err(e), afterInfo)
      case Ok(info) =>
        if HasStyle(info.dwStyle, WS_CHILD) || !HasStyle(info.dwStyle, WS_VISIBLE) then Verdict(Ok(false), afterInfo)
        else
          var owner := w.owner.GetOr(0);
          var exStyle := w.exStyle;
          if w.iconic || (!IsInvalid(owner) && !HasStyle(exStyle, WS_EX_APPWINDOW)) then Verdict(Ok(false), afterIconic)
          else match IsWindowCloaked(w)
          case Err(e) => Verdict(Err(e), afterCloak)
          case Ok(cloaked) =>
            if cloaked then Verdict(Ok(false), afterCloak)
            else match GetMonitorInfo(d, monitor)
            case Err(e) => Verdict(Err(e), afterMonitorInfo)
            case Ok(mi) =>
              IntersectRectIsOverlap(mi.rcWork, info.rcWindow);
              if !IntersectRect(mi.rcWork, info.rcWindow).nonEmpty then Verdict(Ok(false), afterMonitorInfo)
              else match GetWindowClassname(w)
              case Ok(classname) => if classname in IgnoreClasses then Verdict(Ok(false), afterClassName) else Verdict(Ok(true), afterClassName)
              case Err(_) => Verdict(Ok(true), afterClassName)
  }

  /** The collector keeps a window only on `Ok(true)`. */
  predicate Hides(d: Desktop, window: Hwnd, monitor: HMonitor) {
    WindowShouldHide(d, window, monitor).result == Ok(true)
  }

  // ---------------------------------------------------------------------------
  // The collector, `collect_windows_to_hide` driven by `EnumWindows`.

  /** The windows of `hs` the collector keeps, in the order they are presented. */
  function WindowsToHide(d: Desktop, monitor: HMonitor, hs: seq<Hwnd>): seq<Hwnd>
    decreases |hs|
  {
    if hs == [] then []
    else
      var last := hs[|hs| - 1];
      WindowsToHide(d, monitor, hs[..|hs| - 1]) + (if Hides(d, last, monitor) then [last] else [])
  }

  /** `xs` is obtained from `ys` by deleting elements. */
  ghost predicate IsSubsequence<T>(xs: seq<T>, ys: seq<T>)
    decreases |ys|
  {
    if ys == [] then xs == []
    else if xs != [] && xs[|xs| - 1] == ys[|ys| - 1] then
      IsSubsequence(xs[..|xs| - 1], ys[..|ys| - 1]) || IsSubsequence(xs, ys[..|ys| - 1])
    else IsSubsequence(xs, ys[..|ys| - 1])
  }

  ghost predicate Distinct<T>(s: seq<T>) {
    forall i, j :: 0 <= i < j < |s| ==> s[i] != s[j]
  }

  /** A window is collected exactly when it is presented and eligible. */
  lemma {:induction false} WindowsToHideMembers(d: Desktop, monitor: HMonitor, hs: seq<Hwnd>)
    ensures forall h :: h in WindowsToHide(d, monitor, hs) <==> h in hs && Eligible(d, h, monitor)
    decreases |hs|
  {
    if hs != [] {
      var init := hs[..|hs| - 1];
      WindowsToHideMembers(d, monitor, init);
      assert hs == init + [hs[|hs| - 1]];
    }
  }

  /** The collected windows keep the enumeration order. */
  lemma {:induction false} WindowsToHideIsSubsequence(d: Desktop, monitor: HMonitor, hs: seq<Hwnd>)
    ensures IsSubsequence(WindowsToHide(d, monitor, hs), hs)
    decreases |hs|
  {
    if hs != [] {
      var init := hs[..|hs| - 1];
      var last := hs[|hs| - 1];
      var prev := WindowsToHide(d, monitor, init);
      WindowsToHideIsSubsequence(d, monitor, init);
      var r := WindowsToHide(d, monitor, hs);
      if Hides(d, last, monitor) {
        assert r == prev + [last];
        assert r[..|r| - 1] == prev && r[|r| - 1] == last;
      } else {
        assert r == prev;
      }
    }
  }

  /** No window is collected twice when the enumeration presents each once. */
  lemma {:induction false} WindowsToHideDistinct(d: Desktop, monitor: HMonitor, hs: seq<Hwnd>)
    requires Distinct(hs)
    ensures Distinct(WindowsToHide(d, monitor, hs))
    decreases |hs|
  {
    if hs != [] {
      var init := hs[..|hs| - 1];
      var last := hs[|hs| - 1];
      assert Distinct(init);
      WindowsToHideDistinct(d, monitor, init);
      WindowsToHideMembers(d, monitor, init);
      assert last !in init;
    }
  }

  /** `WindowCollection`: the target monitor and the windows collected so far. */
  class WindowCollection {
    const monitor: HMonitor
    var windows: seq<Hwnd>

    constructor (monitor: HMonitor)
      ensures this.monitor == monitor && windows == []
    {
      this.monitor := monitor;
      windows := [];
    }

    /** `collect_windows_to_hide`: the `EnumWindows` callback. It appends the
        window on `Ok(true)`, silently drops it otherwise, and always asks the
        enumeration to continue. */
    method CollectWindowsToHide(d: Desktop, hwnd: Hwnd) returns (continueEnum: bool)
      modifies this
      ensures continueEnum
      ensures windows == old(windows) + (if Hides(d, hwnd, monitor) then [hwnd] else [])
    {
      var verdict := WindowShouldHide(d, hwnd, monitor);
      match verdict.result {
        case Ok(shouldHide) =>
          if shouldHide {
            windows := windows + [hwnd];
          }
        case Err(_) =>
      }
      continueEnum := true;
    }
  }

  /** `EnumWindows(collect_windows_to_hide, collection)`: presents the
      top-level windows in order and stops early if the callback asks it to. */
  method EnumWindows(d: Desktop, collection: WindowCollection) returns (r: Result<(), Error>)
    modifies collection
    ensures collection.windows == old(collection.windows) + WindowsToHide(d, collection.monitor, d.zOrder)
    ensures r.Ok? <==> !d.enumFails
  {
    var i := 0;
    var continueEnum := true;
    while i < |d.zOrder| && continueEnum
      invariant 0 <= i <= |d.zOrder|
      invariant continueEnum
      invariant collection.windows == old(collection.windows) + WindowsToHide(d, collection.monitor, d.zOrder[..i])
    {
      continueEnum := collection.CollectWindowsToHide(d, d.zOrder[i]);
      assert d.zOrder[..i + 1][..i] == d.zOrder[..i];
      i := i + 1;
    }
    assert d.zOrder[..i] == d.zOrder;
    r := if d.enumFails then Err(LastError) else Ok(());
  }

  // ---------------------------------------------------------------------------
  // The hide executor, `hide_windows_on_active_monitor`.

  /** One `ShowWindow(hwnd, cmd)` request received by the OS. */
  datatype ShowWindowRequest = ShowWindowRequest(hwnd: Hwnd, cmd: int)

  /** One non-activating minimize request per window, in order. */
  function MinimizeRequests(hs: seq<Hwnd>): seq<ShowWindowRequest> {
    seq(|hs|, i requires 0 <= i < |hs| => ShowWindowRequest(hs[i], SW_SHOWMINNOACTIVE))
  }

  /** The foreground window's nearest monitor. */
  function ActiveMonitor(d: Desktop): HMonitor {
    MonitorFromWindow(d, d.foreground)
  }

  /** The transaction succeeds when the foreground window and its monitor are
      valid and the enumeration does not fail. */
  predicate HideSucceeds(d: Desktop) {
    !IsInvalid(d.foreground) && !IsInvalid(ActiveMonitor(d)) && !d.enumFails
  }

  /** The requests one hide transaction issues on `d`. */
  function HideRequests(d: Desktop): seq<ShowWindowRequest> {
    if HideSucceeds(d) then MinimizeRequests(WindowsToHide(d, ActiveMonitor(d), d.zOrder)) else []
  }

  /** The OS side of `ShowWindow`: the log of the requests it has received. */
  class WindowManager {
    var requests: seq<ShowWindowRequest>

    constructor ()
      ensures requests == []
    {
      requests := [];
    }

    /** `ShowWindow(hwnd, cmd)`; whether it succeeds is the OS's business. */
    method ShowWindow(hwnd: Hwnd, cmd: int)
      modifies this
      ensures requests == old(requests) + [ShowWindowRequest(hwnd, cmd)]
    {
      requests := requests + [ShowWindowRequest(hwnd, cmd)];
    }
  }

  /** `hide_windows_on_active_monitor`: an empty error, and no request, when
      the foreground window or its monitor is invalid; the enumeration's error,
      and no request, when `EnumWindows` fails; otherwise one
      `SW_SHOWMINNOACTIVE` request per collected window, in collection order,
      whatever each request's outcome. */
  method HideWindowsOnActiveMonitor(d: Desktop, wm: WindowManager) returns (r: Result<(), Error>)
    modifies wm
    ensures r.Ok? <==> HideSucceeds(d)
    ensures (IsInvalid(d.foreground) || IsInvalid(ActiveMonitor(d))) ==> r == Err(EmptyError)
    ensures wm.requests == old(wm.requests) + HideRequests(d)
  {
    var foregroundWindow := d.foreground;
    var monitor := MonitorFromWindow(d, foregroundWindow);
    if IsInvalid(foregroundWindow) || IsInvalid(monitor) {
      return Err(EmptyError);
    }
    var collection := new WindowCollection(monitor);
    var enumerated := EnumWindows(d, collection);
    if enumerated.Err? {
      return Err(enumerated.error);
    }
    var windows := collection.windows;
    for i := 0 to |windows|
      invariant wm.requests == old(wm.requests) + MinimizeRequests(windows[..i])
    {
      wm.ShowWindow(windows[i], SW_SHOWMINNOACTIVE);
      assert MinimizeRequests(windows[..i + 1]) == MinimizeRequests(windows[..i]) + [ShowWindowRequest(windows[i], SW_SHOWMINNOACTIVE)];
    }
    assert windows[..|windows|] == windows;
    return Ok(());
  }

  // ---------------------------------------------------------------------------
  // Properties of a whole transaction.

  /** The desktop once every window of `hs` that still exists is minimized. */
  function Minimized(d: Desktop, hs: seq<Hwnd>): Desktop {
    d.(windows := map h | h in d.windows :: if h in hs then d.windows[h].(iconic := true) else d.windows[h])
  }

  /** Nothing is collected from windows none of which is eligible. */
  lemma {:induction false} NoneEligibleCollectsNothing(d: Desktop, monitor: HMonitor, hs: seq<Hwnd>)
    requires forall h :: h in hs ==> !Eligible(d, h, monitor)
    ensures WindowsToHide(d, monitor, hs) == []
    decreases |hs|
  {
    if hs != [] {
      NoneEligibleCollectsNothing(d, monitor, hs[..|hs| - 1]);
      assert hs[|hs| - 1] in hs;
    }
  }

  /** A second trigger right after a first one, with nothing else changed,
      collects no window: every window the first one minimized is now iconic,
      and every other window is as ineligible as it was. */
  lemma SecondPassCollectsNothing(d: Desktop, monitor: HMonitor)
    ensures WindowsToHide(Minimized(d, WindowsToHide(d, monitor, d.zOrder)), monitor, d.zOrder) == []
  {
    var hidden := WindowsToHide(d, monitor, d.zOrder);
    var d' := Minimized(d, hidden);
    WindowsToHideMembers(d, monitor, d.zOrder);
    forall h | h in d.zOrder
      ensures !Eligible(d', h, monitor)
    {
      if h in hidden {
        assert Snapshot(d', h).iconic;
      } else {
        assert Snapshot(d', h) == Snapshot(d, h);
      }
    }
    NoneEligibleCollectsNothing(d', monitor, d.zOrder);
  }

  /** A second trigger right after a first one, with nothing else changed,
      issues no minimize request. */
  lemma SecondTriggerRequestsNothing(d: Desktop)
    ensures HideRequests(Minimized(d, WindowsToHide(d, ActiveMonitor(d), d.zOrder))) == []
  {
    var d' := Minimized(d, WindowsToHide(d, ActiveMonitor(d), d.zOrder));
    assert ActiveMonitor(d') == ActiveMonitor(d) && d'.zOrder == d.zOrder;
    SecondPassCollectsNothing(d, ActiveMonitor(d));
  }

  /** Two monitors; the foreground window A and a cloaked window C sit on the
      first, B on the second. Exactly A is collected. */
  lemma ScenarioHidesOnlyEligibleOnActiveMonitor()
    ensures var a := WindowSnapshot(1, "Editor", Some(WindowInfo(Rect(0, 0, 800, 600), WS_VISIBLE)),
                                    None, 0, false, Some(0), "TextEditor");
            var d := Desktop(10, map[10 := a, 20 := a.(nearestMonitor := 2), 30 := a.(cloaked := Some(1))],
                             map[1 := MonitorInfo(Rect(0, 0, 1920, 1080), Rect(0, 0, 1920, 1040)),
                                 2 := MonitorInfo(Rect(1920, 0, 3840, 1080), Rect(1920, 0, 3840, 1040))],
                             [10, 20, 30], false);
            HideSucceeds(d) && ActiveMonitor(d) == 1
            && HideRequests(d) == [ShowWindowRequest(10, SW_SHOWMINNOACTIVE)]
  {
    var a := WindowSnapshot(1, "Editor", Some(WindowInfo(Rect(0, 0, 800, 600), WS_VISIBLE)),
                            None, 0, false, Some(0), "TextEditor");
    var d := Desktop(10, map[10 := a, 20 := a.(nearestMonitor := 2), 30 := a.(cloaked := Some(1))],
                     map[1 := MonitorInfo(Rect(0, 0, 1920, 1080), Rect(0, 0, 1920, 1040)),
                         2 := MonitorInfo(Rect(1920, 0, 3840, 1080), Rect(1920, 0, 3840, 1040))],
                     [10, 20, 30], false);
    assert "TextEditor" !in IgnoreClasses;
    assert WindowShouldHide(d, 10, 1).result == Ok(true);
    assert Hides(d, 10, 1);
    assert !Hides(d, 20, 1);
    assert !Hides(d, 30, 1);
    assert d.zOrder[..2] == [10, 20] && d.zOrder[..2][..1] == [10] && [10][..0] == [];
    assert WindowsToHide(d, 1, [10]) == [10];
    assert WindowsToHide(d, 1, [10, 20]) == [10];
    assert WindowsToHide(d, 1, d.zOrder) == [10];
  }
}
