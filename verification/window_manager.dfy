/** The window activator of `src/window_manager.rs`. Toolkit calls are
    recorded as a sequence of `WindowCall`s; the two X11 requests it sends
    are modelled by their payloads, following the Extended Window Manager
    Hints: the `_NET_WM_STATE` property (Application Window Properties) and
    the `_NET_ACTIVE_WINDOW` client message (Root Window Properties). */
module WindowManager {
  import opened Wrappers
  import opened Environment
  import opened Markers

  /** An open X11 connection: the root window of its screen and the four
      interned atoms. */
  datatype X11Context = X11Context(
    root: bv32,
    netActiveWindow: bv32,
    netWmState: bv32,
    netWmStateAbove: bv32,
    netWmStateSticky: bv32)

  datatype Manager = Manager(isWayland: bool, x11: Option<X11Context>, focusMonitorRunning: bool)

  /** `detect_wayland`: any one of three indicators means Wayland. */
  function DetectWayland(env: Env): (r: bool)
    ensures r <==> LowerEquals(env, "XDG_SESSION_TYPE", "wayland")
                   || "WAYLAND_DISPLAY" in env
                   || LowerEquals(env, "GDK_BACKEND", "wayland")
  {
    var sessionType := LowerEquals(env, "XDG_SESSION_TYPE", "wayland");
    var waylandDisplay := "WAYLAND_DISPLAY" in env;
    var gdkBackend := LowerEquals(env, "GDK_BACKEND", "wayland");
    sessionType || waylandDisplay || gdkBackend
  }

  /** `WindowManager::new`. `setup` is the outcome of connecting to the X
      server and interning the atoms; it is consulted only off Wayland, and
      its failure leaves the manager without a connection. */
  function New(env: Env, setup: Option<X11Context>): (wm: Manager)
    ensures wm.isWayland == DetectWayland(env)
    ensures wm.isWayland ==> wm.x11.None?
    ensures !wm.isWayland ==> wm.x11 == setup
    ensures wm.focusMonitorRunning <==> wm.isWayland
  {
    var isWayland := DetectWayland(env);
    Manager(isWayland, if isWayland then None else setup, isWayland)
  }

  // ---------------------------------------------------------------------
  // _NET_WM_STATE

  datatype PropMode = Replace | Prepend | Append

  /** The predefined atom `ATOM` of the core protocol. */
  const AtomType: bv32 := 4

  datatype ChangeProperty = ChangeProperty(
    mode: PropMode, window: bv32, property: bv32, propertyType: bv32,
    format: nat, count: nat, data: seq<bv32>)

  /** `set_window_state`: the payload lists the sticky atom, then the above
      atom, each only when asked for; nothing is sent without a connection
      or with an empty payload. */
  function SetWindowState(wm: Manager, window: bv32, sticky: bool, above: bool): (r: Option<ChangeProperty>)
    ensures r.Some? <==> wm.x11.Some? && (sticky || above)
    ensures r.Some? ==>
      var c := wm.x11.value;
      && r.value.mode == Replace
      && r.value.window == window
      && r.value.property == c.netWmState
      && r.value.propertyType == AtomType
      && r.value.format == 32
      && r.value.count == |r.value.data|
      && r.value.data == (if sticky then [c.netWmStateSticky] else []) + (if above then [c.netWmStateAbove] else [])
  {
    match wm.x11
    case None => None
    case Some(c) =>
      var data := (if sticky then [c.netWmStateSticky] else []) + (if above then [c.netWmStateAbove] else []);
      if |data| == 0 then None
      else Some(ChangeProperty(Replace, window, c.netWmState, AtomType, 32, |data|, data))
  }

  /** The property written carries only state atoms, each at most once, so it
      is a well-formed `_NET_WM_STATE` value whenever the two atoms differ. */
  lemma WindowStatePayloadWellFormed(wm: Manager, window: bv32, sticky: bool, above: bool)
    requires wm.x11.Some? && wm.x11.value.netWmStateSticky != wm.x11.value.netWmStateAbove
    requires SetWindowState(wm, window, sticky, above).Some?
    ensures var p := SetWindowState(wm, window, sticky, above).value;
      && 1 <= |p.data| <= 2
      && (forall a :: a in p.data ==> a == wm.x11.value.netWmStateSticky || a == wm.x11.value.netWmStateAbove)
      && (wm.x11.value.netWmStateSticky in p.data <==> sticky)
      && (wm.x11.value.netWmStateAbove in p.data <==> above)
  {
  }

  /** `setup_window`: off Wayland, with a connection and an X11 surface, the
      window is made sticky and above. */
  function SetupWindow(wm: Manager, xid: Option<bv32>): (r: Option<ChangeProperty>)
    ensures r.Some? <==> !wm.isWayland && wm.x11.Some? && xid.Some?
    ensures r.Some? ==> r.value.data == [wm.x11.value.netWmStateSticky, wm.x11.value.netWmStateAbove]
  {
    if !wm.isWayland && wm.x11.Some? && xid.Some? then SetWindowState(wm, xid.value, true, true)
    else None
  }

  // ---------------------------------------------------------------------
  // _NET_ACTIVE_WINDOW

  /** `gdk::CURRENT_TIME`. */
  const CurrentTime: bv32 := 0

  /** Source indication 1: the request comes from an application. */
  const SourceApplication: bv32 := 1

  const SubstructureNotifyMask: bv32 := 0x80000
  const SubstructureRedirectMask: bv32 := 0x100000

  /** A `SendEvent` request carrying a client message. */
  datatype ClientMessage = ClientMessage(
    destination: bv32, propagate: bool, eventMask: bv32,
    format: nat, window: bv32, messageType: bv32, data: seq<bv32>)

  /** `focus_x11_window` as written: the message asks to activate `window`
      with source indication "application" and timestamp `CURRENT_TIME`, and
      is sent to `window` itself. */
  function FocusX11Window(wm: Manager, window: bv32): (r: Option<ClientMessage>)
    ensures r.Some? <==> wm.x11.Some?
    ensures r.Some? ==>
      && r.value.messageType == wm.x11.value.netActiveWindow
      && r.value.format == 32
      && r.value.window == window
      && r.value.data == [SourceApplication, CurrentTime, 0, 0, 0]
      && r.value.destination == window
      && !r.value.propagate
  {
    match wm.x11
    case None => None
    case Some(c) =>
      Some(ClientMessage(window, false, SubstructureRedirectMask | SubstructureNotifyMask,
                         32, window, c.netActiveWindow, [SourceApplication, CurrentTime, 0, 0, 0]))
  }

  /** The message of `FocusX11Window` never reaches the root window, where a
      window manager listens for `_NET_ACTIVE_WINDOW` requests. */
  lemma ActiveWindowMessageMissesRoot(wm: Manager, window: bv32)
    requires wm.x11.Some? && window != wm.x11.value.root
    ensures FocusX11Window(wm, window).value.destination != wm.x11.value.root
  {
  }

  /** The request as the hints prescribe it: the same message, sent to the
      root window with the substructure masks. */
  function FocusX11WindowViaRoot(wm: Manager, window: bv32): (r: Option<ClientMessage>)
    ensures r.Some? <==> wm.x11.Some?
    ensures r.Some? ==>
      && r.value.destination == wm.x11.value.root
      && r.value.eventMask == SubstructureRedirectMask | SubstructureNotifyMask
      && r.value.window == window
      && r.value.messageType == wm.x11.value.netActiveWindow
      && r.value.data == [SourceApplication, CurrentTime, 0, 0, 0]
  {
    match wm.x11
    case None => None
    case Some(c) =>
      Some(ClientMessage(c.root, false, SubstructureRedirectMask | SubstructureNotifyMask,
                         32, window, c.netActiveWindow, [SourceApplication, CurrentTime, 0, 0, 0]))
  }

  /** The corrected request differs from the written one only in where it is
      sent. */
  lemma ViaRootDiffersOnlyInDestination(wm: Manager, window: bv32)
    requires wm.x11.Some?
    ensures FocusX11WindowViaRoot(wm, window).value
         == FocusX11Window(wm, window).value.(destination := wm.x11.value.root)
  {
  }

  // ---------------------------------------------------------------------
  // focus_window

  datatype WindowCall =
    | Show
    | Unminimize
    | PresentWithTime(time: bv32)
    | Present
    | SendActiveWindow(message: ClientMessage)

  /** `focus_window`: show and unminimize always; then on Wayland a
      timestamped present and nothing else, on X11 a present followed by the
      `_NET_ACTIVE_WINDOW` message when the window has an X11 surface and the
      manager a connection. `xid` is the surface's X11 id, if any. */
  function FocusWindow(wm: Manager, xid: Option<bv32>): (calls: seq<WindowCall>)
    ensures |calls| >= 3 && calls[0] == Show && calls[1] == Unminimize
    ensures wm.isWayland ==> calls == [Show, Unminimize, PresentWithTime(CurrentTime)]
    ensures !wm.isWayland ==> calls[2] == Present
    ensures |calls| == 4 <==> !wm.isWayland && wm.x11.Some? && xid.Some?
    ensures |calls| == 4 ==> calls[3] == SendActiveWindow(FocusX11Window(wm, xid.value).value)
    ensures forall i :: 0 <= i < |calls| && calls[i].SendActiveWindow? ==> i == 3
  {
    if wm.isWayland then [Show, Unminimize, PresentWithTime(CurrentTime)]
    else
      var send := if xid.Some? then FocusX11Window(wm, xid.value) else None;
      [Show, Unminimize, Present] + (if send.Some? then [SendActiveWindow(send.value)] else [])
  }

  /** A Wayland manager never talks X11 while focusing. */
  lemma WaylandFocusSendsNoMessage(wm: Manager, xid: Option<bv32>)
    requires wm.isWayland
    ensures forall c :: c in FocusWindow(wm, xid) ==> !c.SendActiveWindow?
  {
  }

  // ---------------------------------------------------------------------
  // Focus script, focus monitor, tool check

  datatype FocusScript = FocusScript(path: string, content: string)

  /** `create_focus_script`: not on Wayland; otherwise `focus.sh` in the
      configuration directory running `<exe> --focus`, returned only when it
      could be written. */
  function CreateFocusScript(wm: Manager, env: Env, exe: string, written: bool): (r: Option<FocusScript>)
    ensures wm.isWayland ==> r.None?
    ensures r.Some? <==> !wm.isWayland && written
    ensures r.Some? ==> r.value.path == ConfigDir(env) + "/focus.sh"
    ensures r.Some? ==> r.value.content == "#!/bin/sh\n" + exe + " --focus\n"
  {
    if wm.isWayland || !written then None
    else Some(FocusScript(ConfigDir(env) + "/focus.sh", "#!/bin/sh\n" + exe + " --focus\n"))
  }

  /** One iteration of the Wayland focus monitor thread: a `focus-window`
      marker is deleted; nothing else is touched. */
  function FocusMonitorStep(m: Markers): (r: Markers)
    ensures r.focus.None?
    ensures r.trigger == m.trigger && r.selection == m.selection
    ensures m.focus.None? ==> r == m
  {
    if m.focus.Some? then m.(focus := None) else m
  }

  /** `check_clipboard_tools`: the native implementation needs no tools. */
  function CheckClipboardTools(wm: Manager): (r: bool)
    ensures r
  {
    true
  }
}
