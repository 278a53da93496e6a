/** The repository decides "X11 or Wayland" in three places with three
    different rules: the hotkey service, the selection reader and the window
    manager. These lemmas relate the three detectors. */
module Detection {
  import opened Environment
  import Text
  import Hotkey
  import Selection
  import WindowManager

  /** The selection reader and the hotkey service disagree when the session
      type says "x11" but `WAYLAND_DISPLAY` is set (an XWayland-style
      session): the selection chain runs the X11 tools, while the hotkey
      service registers a Wayland shortcut and the window manager also
      believes it is on Wayland. */
  lemma DetectorsDisagreeOnX11SessionWithWaylandDisplay()
    ensures var env: Env := map["XDG_SESSION_TYPE" := "x11", "WAYLAND_DISPLAY" := "wayland-0"];
      && Selection.DetectDisplayServer(env) == Selection.X11
      && Hotkey.HotkeyDisplayServer(env) == Hotkey.HotkeyWayland
      && WindowManager.DetectWayland(env)
  {
    var env: Env := map["XDG_SESSION_TYPE" := "x11", "WAYLAND_DISPLAY" := "wayland-0"];
    assert Text.ToLower("x11") == "x11";
    assert Text.ToLower("x11") != "wayland";
  }

  /** `GDK_BACKEND=wayland` alone convinces only the window manager. */
  lemma OnlyWindowManagerReadsGdkBackend()
    ensures var env: Env := map["DISPLAY" := ":0", "GDK_BACKEND" := "wayland"];
      && Selection.DetectDisplayServer(env) == Selection.X11
      && Hotkey.HotkeyDisplayServer(env) == Hotkey.HotkeyX11
      && WindowManager.DetectWayland(env)
  {
    var env: Env := map["DISPLAY" := ":0", "GDK_BACKEND" := "wayland"];
    assert Text.ToLower("wayland") == "wayland";
  }

  /** With no display variables at all the selection reader gives up, while
      the hotkey service still picks X11. */
  lemma EmptyEnvironment()
    ensures Selection.DetectDisplayServer(map[]) == Selection.Unknown
    ensures Hotkey.HotkeyDisplayServer(map[]) == Hotkey.HotkeyX11
    ensures !WindowManager.DetectWayland(map[])
  {
  }

  /** Whenever the selection reader says Wayland, so do the other two. */
  lemma SelectionWaylandImpliesOthers(env: Env)
    requires Selection.DetectDisplayServer(env) == Selection.Wayland
    ensures Hotkey.HotkeyDisplayServer(env) == Hotkey.HotkeyWayland
    ensures WindowManager.DetectWayland(env)
  {
  }

  /** The hotkey service's verdict of Wayland always implies the window
      manager's: its two indicators are among the window manager's three. */
  lemma HotkeyWaylandImpliesWindowManagerWayland(env: Env)
    requires Hotkey.HotkeyDisplayServer(env) == Hotkey.HotkeyWayland
    ensures WindowManager.DetectWayland(env)
  {
  }

  /** An explicit Wayland session type makes all three agree. */
  lemma WaylandSessionAgreement(env: Env)
    requires LowerEquals(env, "XDG_SESSION_TYPE", "wayland")
    ensures Selection.DetectDisplayServer(env) == Selection.Wayland
    ensures Hotkey.HotkeyDisplayServer(env) == Hotkey.HotkeyWayland
    ensures WindowManager.DetectWayland(env)
  {
  }
}
