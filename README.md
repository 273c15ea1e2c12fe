# show-desktop: the window-selection and hotkey engine, in Dafny

show-desktop is a Windows background utility. A low-level keyboard hook
watches for LWIN + D. On that chord it minimizes, without activating
anything, every "normal" top-level window on the monitor of the foreground
window. Windows on other monitors are left alone. This project models the
three pieces of decision logic behind that, and proves what they promise.

- **The eligibility filter** (`window_should_hide`, module `Window`). It is a
  short-circuiting chain of seven checks: the monitor, the title, the visible
  and child styles, iconic and owned windows, the cloak flag, the overlap with
  the monitor's work area, and the class-name deny-list. It gives `Ok(true)`,
  `Ok(false)` or `Err`. The model also returns the list of OS queries made.
  That is how it states that a window on another monitor is turned down before
  any other query.
- **The collector and the hide executor** (`collect_windows_to_hide`,
  `EnumWindows`, `hide_windows_on_active_monitor`). The collector is a class
  whose `windows` field grows by appends. `EnumWindows` is a loop over the
  enumeration order. The executor loops over the collected windows and appends
  one `ShowWindow(hwnd, SW_SHOWMINNOACTIVE)` request each to a log that only
  grows.
- **The keyboard hook and the message loop** (module `Program`, for
  src/main.rs). The hook decision is a pure function. The message loop is a
  loop over the results of successive `GetMessageW` calls, with a hook
  object whose handle it frees and then clears.

The operating system is a `Desktop` value passed in. It holds:

- the foreground window;
- for each window that still exists, what every attribute query answers
  (`WindowSnapshot`);
- the monitors whose `GetMonitorInfoW` succeeds;
- the enumeration order;
- whether `EnumWindows` reports failure.

A handle that is not in the map behaves like a destroyed window: null
monitor, no title, failed queries. A failable query is an `Option` field,
except title and class name. Those are the copied text, and an empty text
means the query returned length 0. Handles are naturals, and 0 is the null
handle (`is_invalid`). Rust's `as u32` on `WPARAM` and `as u16` on `vkCode`
keep the low bits, and the model writes those truncations out (`LowDword`,
`LowWord`).

Some behaviours of the code are worth spelling out:

- The comment at src/window.rs:69 says untitled windows are ignored. In the
  code, a zero-length title is an `Err` from `get_window_title`
  (src/window.rs:164-165), and `?` passes it on. So the `is_empty` check at
  src/window.rs:71 never rejects anything. Failed window-info, cloak and
  monitor-info queries give `Err` the same way. The collector drops a window
  on `Err` as it does on `Ok(false)` (src/window.rs:47-53).
- A second trigger minimizes nothing. A minimized window is iconic, and
  src/window.rs:85 rejects it. So a second trigger on an otherwise unchanged
  desktop issues no request at all (`Window.SecondTriggerRequestsNothing`).
- The message loop stops only when `GetMessageW` returns 0, because
  `as_bool()` is true for any non-zero value. An error result (-1) keeps the
  loop going and translates and dispatches whatever `MSG` is left behind,
  although the flag's name (`no_error_or_quit`) suggests the loop was meant
  to stop on an error too. The model keeps the code's behaviour
  (`Program.QuitIndex`, `Program.MessageLoop`).

## Model

| member | source | states |
|---|---|---|
| `Win32.LowDword` | src/main.rs:43 | `wParam.0 as u32` leaves a value below 2^32 unchanged, and otherwise differs from it by a whole number of 2^32 steps |
| `Win32.LowWord` | src/main.rs:45 | `vkCode as u16` is below 2^16, leaves a value below 2^16 unchanged, and otherwise differs from it by a whole number of 2^16 steps |
| `Win32.IntersectRect` | src/window.rs:101-104 | the result is non-empty exactly when the written rectangle is non-empty; on an empty intersection it writes (0, 0, 0, 0) |
| `Win32.IntersectRectIsOverlap` | src/window.rs:101-104 | `IntersectRect` reports non-empty exactly when the two rectangles share a point, and the rectangle it writes holds exactly their common points |
| `Window.GetWindowTitle` | src/window.rs:161-169 | `Err` exactly when the copied title has length 0; otherwise `Ok` of that non-empty title |
| `Window.GetWindowClassname` | src/window.rs:171-179 | `Err` exactly when the copied class name has length 0; otherwise `Ok` of that non-empty name |
| `Window.GetWindowInfo` | src/window.rs:150-159 | `Err` exactly when GetWindowInfo fails; otherwise the window's info |
| `Window.IsWindowCloaked` | src/window.rs:123-134 | `Err` exactly when the DWM query fails; otherwise `Ok(cloaked != 0)` |
| `Window.GetMonitorInfo` | src/window.rs:136-148 | `Err` exactly when GetMonitorInfoW fails for the monitor; otherwise its info |
| `Window.WindowShouldHide` | src/window.rs:59-121 | a window on another monitor gives `Ok(false)` after the monitor query alone; an empty title gives `Err` right after the title query; `Ok(true)` exactly when visible, not a child, not iconic, ownerless or `WS_EX_APPWINDOW`, not cloaked, overlapping the target's work area and not on the deny-list; `Err` exactly when the title, window-info, cloak or monitor-info query fails after the earlier checks pass, and the chain stops at that failing query (every failable query made before the last one succeeded); a failed class-name query does not reject; the queries made are a prefix of the source order, all of them on `Ok(true)` |
| `Window.WindowsToHideMembers` | src/window.rs:44-57 | a window is collected exactly when it is enumerated and eligible |
| `Window.WindowsToHideIsSubsequence` | src/window.rs:44-57 | the collected windows are a subsequence of the enumeration order |
| `Window.WindowsToHideDistinct` | src/window.rs:44-57 | when the enumeration presents each window once, no window is collected twice |
| `Window.NoneEligibleCollectsNothing` | src/window.rs:44-57 | when no enumerated window is eligible, nothing is collected |
| `Window.WindowCollection.constructor` | src/window.rs:27-30 | a collection for the target monitor starts empty |
| `Window.WindowCollection.CollectWindowsToHide` | src/window.rs:44-57 | appends the window exactly on `Ok(true)` and always asks the enumeration to continue |
| `Window.EnumWindows` | src/window.rs:31-34 | every enumerated window reaches the callback, in order, so the collection grows by exactly the windows to hide; it fails exactly when the enumeration reports failure |
| `Window.WindowManager.ShowWindow` | src/window.rs:37 | records one `ShowWindow` request and changes nothing else |
| `Window.HideWindowsOnActiveMonitor` | src/window.rs:20-41 | an invalid foreground window or monitor gives an empty error, and a failed enumeration gives `Err`, with no request in either case; otherwise one `SW_SHOWMINNOACTIVE` request per collected window, in collection order, whatever each request's outcome |
| `Window.SecondPassCollectsNothing` | src/window.rs:85-90 | once the collected windows are minimized (iconic), collecting again for the same monitor gives no window |
| `Window.SecondTriggerRequestsNothing` | src/window.rs:20-41 | once a trigger's windows are minimized, a second trigger on the same desktop issues no minimize request |
| `Window.ScenarioHidesOnlyEligibleOnActiveMonitor` | src/window.rs:20-57 | with A (foreground) on monitor 1, B on monitor 2 and C cloaked on monitor 1, exactly A gets a minimize request |
| `Program.LlKeyboardDecision` | src/main.rs:32-55 | a negative code is passed on without looking at the event; the hide transaction runs exactly on a key-down of D while LWIN is held, and then the hook returns -1, otherwise the next hook's answer; the event is read only for a key-down and the key state only for D; a key-up is always passed on |
| `Program.LlKeyboardEvent` | src/main.rs:43-54 | returns the decision's answer, and -1 on the hotkey whatever the hide result; the minimize requests of one hide transaction are issued exactly on the hotkey, and no request otherwise |
| `Program.QuitIndex` | src/main.rs:59-65 | the loop ends at the first 0 result; every earlier result, -1 included, keeps it going |
| `Program.PumpedTranslatesThenDispatches` | src/main.rs:66-67 | each received message is translated and then dispatched, in order |
| `Program.PumpedNeverUnhooks` | src/main.rs:59-68 | pumping messages never releases the hook |
| `Program.KeyboardHook.constructor` | src/main.rs:24 | holds the installed hook's handle |
| `Program.MessageLoop` | src/main.rs:57-69 | the calls made are the translate and dispatch of each message before the first 0 result, then the release of a non-null hook; the handle afterwards is null; if no 0 result comes, the hook stays as it was |
| `Program.LoopUnhooksAtMostOnce` | src/main.rs:61-64 | a run of the loop releases the hook at most once, and exactly once when it ends on a non-null hook |

## Left out

- src/notification.rs: the tray window class, `Shell_NotifyIconW`, the popup menu, the `TaskbarCreated` message and `loword`. This is user-interface plumbing.
- build.rs: icon and resource embedding at build time.
- `main` (src/main.rs:21-29): `GetModuleHandleW`, installing the hook with `SetWindowsHookExW` and creating the tray window are OS calls. Only the hook handle they produce appears, as the `KeyboardHook` object.
- `print_window_name` (src/window.rs:181-196): dead debug code that writes to the console.
- The OS calls themselves (`GetForegroundWindow`, `MonitorFromWindow`, `GetWindowTextW`, `GetWindowInfo`, `GetWindow`, `GetWindowLongW`, `IsIconic`, `DwmGetWindowAttribute`, `GetMonitorInfoW`, `GetClassNameW`, `EnumWindows`, `ShowWindow`, `GetKeyState`, `CallNextHookEx`, `GetMessageW`, `TranslateMessage`, `DispatchMessageW`, `UnhookWindowsHookEx`). They are answers in the `Desktop` snapshot, inputs, or entries in a call log. How the OS picks the nearest monitor is not modelled.
- UTF-16 decoding and the 512- and 256-unit buffers: a title or class name is an abstract string, and an empty one means the query returned 0.
- The error codes behind `Error::from_win32()` and failed HRESULTs: only the kind of error is kept.
- `Window.EnumWindows`: an enumeration failure is reported after the whole walk. The collected windows are discarded on `Err`, so the point of failure makes no difference.
- `Window.WindowManager.ShowWindow`: what `ShowWindow` returns is not modelled, because the source discards it. The only OS effect modelled is that a minimized window becomes iconic (`Window.Minimized`).
- `Program.LlKeyboardDecision`: the value `CallNextHookEx` returns belongs to the next hook, so the model only records that the event was passed on.
- RECT coordinates are unbounded integers rather than i32. Intersection never leaves the range of its inputs.
- Concurrency: windows created or destroyed during the enumeration, and re-entrant hook calls. Each snapshot is fixed for one transaction.
