/** The selection reader of `src/selection.rs`: a display-server detector
    and two fallback chains of external tools. A tool run is `Some(stdout)`
    when the process ran and exited successfully, `None` otherwise. */
module Selection {
  import opened Wrappers
  import opened Environment

  datatype SelectionSource = X11 | Wayland | Unknown

  /** Outcomes of the four tools the chains may run. */
  datatype ToolRuns = ToolRuns(
    xclip: Option<string>,          // xclip -o -selection primary
    xsel: Option<string>,           // xsel --primary
    wlPaste: Option<string>,        // wl-paste --primary
    xclipNoWayland: Option<string>) // sh -c "WAYLAND_DISPLAY= xclip -o -selection primary"

  const UnknownServerText := "Could not detect display server"
  const X11FailureText := "Failed to get X11 selection"
  const WaylandFailureText := "Failed to get Wayland selection"

  /** The three fixed texts returned instead of a selection. */
  predicate IsFailureText(s: string) {
    s == UnknownServerText || s == X11FailureText || s == WaylandFailureText
  }

  /** `detect_display_server`: an explicit session type decides on its own;
      only when it is unset do `WAYLAND_DISPLAY` and `DISPLAY` matter. */
  function DetectDisplayServer(env: Env): (r: SelectionSource)
    ensures "XDG_SESSION_TYPE" in env ==> r != Unknown
    ensures "XDG_SESSION_TYPE" in env ==> (r == Wayland <==> LowerEquals(env, "XDG_SESSION_TYPE", "wayland"))
    ensures "XDG_SESSION_TYPE" !in env ==> (r == Wayland <==> "WAYLAND_DISPLAY" in env)
    ensures "XDG_SESSION_TYPE" !in env ==> (r == X11 <==> "WAYLAND_DISPLAY" !in env && "DISPLAY" in env)
    ensures r == Unknown <==> "XDG_SESSION_TYPE" !in env && "WAYLAND_DISPLAY" !in env && "DISPLAY" !in env
  {
    match Var(env, "XDG_SESSION_TYPE")
    case Some(session) =>
      if LowerEquals(env, "XDG_SESSION_TYPE", "wayland") then Wayland else X11
    case None =>
      if "WAYLAND_DISPLAY" in env then Wayland
      else if "DISPLAY" in env then X11
      else Unknown
  }

  /** `get_x11_selection`: a successful xclip run wins (even with empty
      output); xsel is consulted only when xclip failed. */
  function X11Selection(runs: ToolRuns): (r: string)
    ensures runs.xclip.Some? ==> r == runs.xclip.value
    ensures runs.xclip.None? && runs.xsel.Some? ==> r == runs.xsel.value
    ensures runs.xclip.None? && runs.xsel.None? ==> r == X11FailureText
  {
    match runs.xclip
    case Some(out) => out
    case None =>
      match runs.xsel
      case Some(out) => out
      case None => X11FailureText
  }

  /** `get_wayland_selection`: wl-paste first, then xclip through XWayland. */
  function WaylandSelection(runs: ToolRuns): (r: string)
    ensures runs.wlPaste.Some? ==> r == runs.wlPaste.value
    ensures runs.wlPaste.None? && runs.xclipNoWayland.Some? ==> r == runs.xclipNoWayland.value
    ensures runs.wlPaste.None? && runs.xclipNoWayland.None? ==> r == WaylandFailureText
  {
    match runs.wlPaste
    case Some(out) => out
    case None =>
      match runs.xclipNoWayland
      case Some(out) => out
      case None => WaylandFailureText
  }

  /** The stdout of some tool of the chain selected for `env`. */
  predicate IsToolOutput(env: Env, runs: ToolRuns, s: string) {
    match DetectDisplayServer(env)
    case X11 => runs.xclip == Some(s) || runs.xsel == Some(s)
    case Wayland => runs.wlPaste == Some(s) || runs.xclipNoWayland == Some(s)
    case Unknown => false
  }

  /** Every tool of the chain selected for `env` failed. */
  predicate ChainFailed(env: Env, runs: ToolRuns) {
    match DetectDisplayServer(env)
    case X11 => runs.xclip.None? && runs.xsel.None?
    case Wayland => runs.wlPaste.None? && runs.xclipNoWayland.None?
    case Unknown => true
  }

  /** `get_selected_text`: either the output of a tool of the chain chosen
      for the detected display server, or — exactly when that whole chain
      failed — one of the three fixed failure texts. */
  function GetSelectedText(env: Env, runs: ToolRuns): (r: string)
    ensures ChainFailed(env, runs) ==> IsFailureText(r)
    ensures !ChainFailed(env, runs) ==> IsToolOutput(env, runs, r)
    ensures DetectDisplayServer(env) == Unknown ==> r == UnknownServerText
  {
    match DetectDisplayServer(env)
    case X11 => X11Selection(runs)
    case Wayland => WaylandSelection(runs)
    case Unknown => UnknownServerText
  }

  /** When every mechanism fails the result is never empty, so a caller that
      only tests for emptiness treats the failure text as a selection. */
  lemma FailureIsNeverEmpty(env: Env, runs: ToolRuns)
    requires ChainFailed(env, runs)
    ensures GetSelectedText(env, runs) != ""
    ensures IsFailureText(GetSelectedText(env, runs))
  {
  }

  /** An empty result can only come from a tool that succeeded with empty
      output. */
  lemma EmptyMeansToolSucceeded(env: Env, runs: ToolRuns)
    requires GetSelectedText(env, runs) == ""
    ensures !ChainFailed(env, runs)
    ensures IsToolOutput(env, runs, "")
  {
  }

  /** Without a recognisable display server no tool runs: the outcome of
      every tool is irrelevant. */
  lemma UnknownIgnoresTools(env: Env, runs1: ToolRuns, runs2: ToolRuns)
    requires DetectDisplayServer(env) == Unknown
    ensures GetSelectedText(env, runs1) == GetSelectedText(env, runs2) == UnknownServerText
  {
  }
}
