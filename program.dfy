/** src/main.rs: the low-level keyboard hook that recognises LWIN + D and the
    message loop that keeps the hook installed until the thread is asked to quit. */
module Program {
  import opened Win32
  import opened Window

  const WM_KEYDOWN: u32 := 0x0100
  const WM_KEYUP: u32 := 0x0101
  const VK_D: int := 0x44

  // ---------------------------------------------------------------------------
  // The keyboard hook, `ll_keyboard_event`.

  /** What the hook procedure returns: the next hook's answer (the event goes
      on to the rest of the system) or its own `LRESULT`. */
  datatype HookReturn = CallNextHook | Processed(lresult: int)

  /** The hook's decision on one event, and which inputs it had to look at. */
  datatype HookDecision = HookDecision(
    ret: HookReturn,
    readsEvent: bool,        // dereferences the KBDLLHOOKSTRUCT behind lParam
    queriesKeyState: bool,   // calls GetKeyState(VK_LWIN)
    invokesHide: bool)       // calls hide_windows_on_active_monitor

  /** Reference definition of the hotkey: a key-down of D (after the casts the
      source applies) while GetKeyState reports LWIN held, on an event that
      carries data. */
  predicate IsHotkey(code: i32, wParam: usize, vkCode: u32, lwinKeyState: i16) {
    code >= 0 && LowDword(wParam) == WM_KEYDOWN && LowWord(vkCode) == VK_D && lwinKeyState < 0
  }

  /** The decision logic of `ll_keyboard_event(code, wParam, lParam)`;
      `vkCode` is the field of the event struct behind `lParam` and
      `lwinKeyState` what GetKeyState(VK_LWIN = 0x5B) answers at that instant. */
  function LlKeyboardDecision(code: i32, wParam: usize, vkCode: u32, lwinKeyState: i16): (h: HookDecision)
    // a negative code is passed on at once, without looking at the event
    ensures code < 0 ==> h == HookDecision(CallNextHook, false, false, false)
    ensures h.invokesHide <==> IsHotkey(code, wParam, vkCode, lwinKeyState)
    // the event is handled, with -1, exactly when the hide transaction runs
    ensures h.ret == (if h.invokesHide then Processed(-1) else CallNextHook)
    // the event struct is read only for a key-down, the key state only for D
    ensures h.readsEvent <==> code >= 0 && LowDword(wParam) == WM_KEYDOWN
    ensures h.queriesKeyState <==> h.readsEvent && LowWord(vkCode) == VK_D
    ensures LowDword(wParam) == WM_KEYUP ==> h.ret == CallNextHook && !h.invokesHide
  {
    if code < 0 then HookDecision(CallNextHook, false, false, false)
    else if LowDword(wParam) == WM_KEYDOWN then
      if LowWord(vkCode) == VK_D then
        var isLwinDown := lwinKeyState < 0;
        if isLwinDown then HookDecision(Processed(-1), true, true, true)
        else HookDecision(CallNextHook, true, true, false)
      else HookDecision(CallNextHook, true, false, false)
    else HookDecision(CallNextHook, false, false, false)
  }

  /** `ll_keyboard_event` with its effect: on the hotkey it runs the hide
      transaction on `d`, discards its result and returns -1; on any other
      event it issues no request and defers to the next hook. */
  method LlKeyboardEvent(code: i32, wParam: usize, vkCode: u32, lwinKeyState: i16,
                         d: Desktop, wm: WindowManager) returns (ret: HookReturn)
    modifies wm
    ensures ret == LlKeyboardDecision(code, wParam, vkCode, lwinKeyState).ret
    ensures wm.requests == old(wm.requests)
              + (if IsHotkey(code, wParam, vkCode, lwinKeyState) then HideRequests(d) else [])
  {
    var decision := LlKeyboardDecision(code, wParam, vkCode, lwinKeyState);
    if decision.invokesHide {
      var _ := HideWindowsOnActiveMonitor(d, wm);
    }
    ret := decision.ret;
  }

  // ---------------------------------------------------------------------------
  // The message loop, `message_loop`.

  /** The part of a `MSG` the loop passes on. */
  datatype Msg = Msg(hwnd: Hwnd, message: u32, wParam: usize, lParam: int)

  /** One call of GetMessageW: its BOOL result and the MSG it leaves behind. */
  datatype GetMessageResult = GetMessageResult(ret: i32, msg: Msg)

  /** The calls the loop makes besides GetMessageW. */
  datatype PumpCall = TranslateMessage(msg: Msg) | DispatchMessage(msg: Msg) | UnhookWindowsHookEx(hook: HHook)

  /** The position of the first GetMessageW result that ends the loop
      (`as_bool()` is false exactly for 0), or `|results|` when there is none. */
  function QuitIndex(results: seq<GetMessageResult>): (k: nat)
    ensures k <= |results|
    ensures forall i :: 0 <= i < k ==> results[i].ret != 0
    ensures k < |results| ==> results[k].ret == 0
    decreases |results|
  {
    if results == [] || results[0].ret == 0 then 0 else 1 + QuitIndex(results[1..])
  }

  /** The calls made for the messages received before the loop ends. */
  function Pumped(results: seq<GetMessageResult>): seq<PumpCall>
    decreases |results|
  {
    if results == [] then []
    else
      var m := results[|results| - 1].msg;
      Pumped(results[..|results| - 1]) + [TranslateMessage(m), DispatchMessage(m)]
  }

  /** Each received message is translated and then dispatched, in order. */
  lemma {:induction false} PumpedTranslatesThenDispatches(results: seq<GetMessageResult>)
    ensures |Pumped(results)| == 2 * |results|
    ensures forall i :: 0 <= i < |results| ==>
              Pumped(results)[2 * i] == TranslateMessage(results[i].msg)
              && Pumped(results)[2 * i + 1] == DispatchMessage(results[i].msg)
    decreases |results|
  {
    if results != [] {
      PumpedTranslatesThenDispatches(results[..|results| - 1]);
    }
  }

  /** Pumping messages never releases the hook. */
  lemma {:induction false} PumpedNeverUnhooks(results: seq<GetMessageResult>)
    ensures forall c :: c in Pumped(results) ==> !c.UnhookWindowsHookEx?
    decreases |results|
  {
    if results != [] {
      PumpedNeverUnhooks(results[..|results| - 1]);
    }
  }

  /** The installed keyboard hook (`HHOOK`); `free` releases a non-null hook. */
  class KeyboardHook {
    var handle: HHook

    constructor (handle: HHook)
      ensures this.handle == handle
    {
      this.handle := handle;
    }
  }

  /** The calls one run of the loop makes on `results`, starting with `hook`. */
  function LoopCalls(results: seq<GetMessageResult>, hook: HHook): seq<PumpCall> {
    var k := QuitIndex(results);
    Pumped(results[..k]) + (if k < |results| && !IsInvalid(hook) then [UnhookWindowsHookEx(hook)] else [])
  }

  /** `message_loop(hook)` over the results GetMessageW gives, in order. Every
      message before the first 0 result is translated and dispatched (a -1
      error result too, since only 0 ends the loop); at the 0 result the hook
      is freed and set to null. If the results run out first, the loop is still
      running and the hook untouched. */
  method MessageLoop(hook: KeyboardHook, results: seq<GetMessageResult>) returns (calls: seq<PumpCall>)
    modifies hook
    ensures calls == LoopCalls(results, old(hook.handle))
    ensures hook.handle == if QuitIndex(results) < |results| then 0 else old(hook.handle)
  {
    var msg := Msg(0, 0, 0, 0);
    calls := [];
    var i := 0;
    while i < |results|
      invariant 0 <= i <= QuitIndex(results)
      invariant calls == Pumped(results[..i])
      invariant hook.handle == old(hook.handle)
    {
      msg := results[i].msg;
      var noErrorOrQuit := results[i].ret != 0;
      if !noErrorOrQuit {
        if !IsInvalid(hook.handle) {
          calls := calls + [UnhookWindowsHookEx(hook.handle)];
        }
        hook.handle := 0;
        break;
      }
      calls := calls + [TranslateMessage(msg), DispatchMessage(msg)];
      assert results[..i + 1][..i] == results[..i];
      i := i + 1;
    }
  }

  /** A run of the loop releases the hook at most once, and exactly once when
      the loop ends on a live hook. */
  lemma LoopUnhooksAtMostOnce(results: seq<GetMessageResult>, hook: HHook)
    ensures var unhooks := set i | 0 <= i < |LoopCalls(results, hook)| && LoopCalls(results, hook)[i].UnhookWindowsHookEx?;
            |unhooks| == (if QuitIndex(results) < |results| && !IsInvalid(hook) then 1 else 0)
  {
    var k := QuitIndex(results);
    var pumped := Pumped(results[..k]);
    var calls := LoopCalls(results, hook);
    PumpedNeverUnhooks(results[..k]);
    var unhooks := set i | 0 <= i < |calls| && calls[i].UnhookWindowsHookEx?;
    if k < |results| && !IsInvalid(hook) {
      assert calls[|pumped|] == UnhookWindowsHookEx(hook);
      assert unhooks == {|pumped|};
    } else {
      assert unhooks == {};
    }
  }
}
