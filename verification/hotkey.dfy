/** The global hotkey pipeline of `src/hotkey.rs`: platform choice,
    desktop-shell registrar dispatch, the 1000 ms debounce guard, the X11
    modifier match and grab set, and one iteration of each detection loop
    (the Wayland trigger-file poll and the X11 key-press handler) as a step
    function over the last accepted trigger time and the marker files. */
module Hotkey {
  import opened Wrappers
  import opened Environment
  import Text
  import opened Markers
  import Selection

  // ---------------------------------------------------------------------
  // Platform and desktop shell

  datatype HotkeyServer = HotkeyX11 | HotkeyWayland

  /** The hotkey service's own detector: Wayland when the session type says
      so or `WAYLAND_DISPLAY` is set, and X11 in every other case. */
  function HotkeyDisplayServer(env: Env): (r: HotkeyServer)
    ensures r == HotkeyWayland <==> LowerEquals(env, "XDG_SESSION_TYPE", "wayland") || "WAYLAND_DISPLAY" in env
  {
    if LowerEquals(env, "XDG_SESSION_TYPE", "wayland") || "WAYLAND_DISPLAY" in env then HotkeyWayland
    else HotkeyX11
  }

  datatype Shell = Gnome | Kde | Generic

  /** `XDG_CURRENT_DESKTOP`, lower-cased, contains `word`. */
  predicate DesktopMentions(env: Env, word: string) {
    "XDG_CURRENT_DESKTOP" in env && Text.Contains(Text.ToLower(env["XDG_CURRENT_DESKTOP"]), word)
  }

  /** Registrar dispatch: GNOME is checked before KDE; anything else is generic. */
  function DetectShell(env: Env): (r: Shell)
    ensures r == Gnome <==> DesktopMentions(env, "gnome")
    ensures r == Kde <==> !DesktopMentions(env, "gnome") && DesktopMentions(env, "kde")
    ensures r == Generic <==> !DesktopMentions(env, "gnome") && !DesktopMentions(env, "kde")
  {
    if DesktopMentions(env, "gnome") then Gnome
    else if DesktopMentions(env, "kde") then Kde
    else Generic
  }

  // ---------------------------------------------------------------------
  // Registrars

  function TriggerPath(env: Env): string {
    ConfigDir(env) + "/hotkey-trigger"
  }

  function TriggerScriptPath(env: Env): string {
    ConfigDir(env) + "/trigger.sh"
  }

  /** The shell script every registrar writes: two lines, each ended by a
      newline (`writeln!`). */
  function TriggerScript(triggerPath: string): string {
    "#!/bin/sh\n" + "touch " + triggerPath + "\n"
  }

  const GnomeKeybindingPath := "org.gnome.settings-daemon.plugins.media-keys.custom-keybinding:/org/gnome/settings-daemon/plugins/media-keys/custom-keybindings/translator/"

  /** What a registrar leaves behind: the script it wrote, the commands it
      spawned (their outcomes are ignored by the source) and the manual
      instructions it printed. */
  datatype Registration = Registration(
    scriptPath: string,
    script: string,
    commands: seq<seq<string>>,
    instructions: seq<string>)

  function ShellCommands(shell: Shell, scriptPath: string): seq<seq<string>> {
    match shell
    case Gnome =>
      [["gsettings", "set", "org.gnome.settings-daemon.plugins.media-keys", "custom-keybindings",
        "['/org/gnome/settings-daemon/plugins/media-keys/custom-keybindings/translator/']"],
       ["gsettings", "set", GnomeKeybindingPath, "name", "'Translator Hotkey'"],
       ["gsettings", "set", GnomeKeybindingPath, "command", "'" + scriptPath + "'"],
       ["gsettings", "set", GnomeKeybindingPath, "binding", "'<Control><Alt>t'"]]
    case Kde =>
      [["kwriteconfig5", "--file", "kglobalshortcutsrc", "--group", "translator",
        "--key", "TranslatorHotkey", scriptPath + ",,Translator Hotkey"],
       ["kquitapp5", "kglobalaccel"]]
    case Generic => []
  }

  function ShellInstructions(shell: Shell, scriptPath: string): seq<string> {
    if shell == Generic then
      ["Shortcut registration for your desktop environment is not directly supported.",
       "Please manually add a global shortcut for Ctrl+Alt+T that runs:",
       "  " + scriptPath]
    else []
  }

  /** `setup_gnome_shortcut`, `setup_kde_shortcut`, `setup_generic_shortcut`. */
  function Register(shell: Shell, env: Env): (r: Registration)
    ensures r.script == TriggerScript(TriggerPath(env))
    ensures r.scriptPath == TriggerScriptPath(env)
    ensures |r.commands| >= 1 && r.commands[0] == ["chmod", "+x", r.scriptPath]
    ensures shell == Generic <==> |r.commands| == 1
    ensures |r.instructions| > 0 <==> shell == Generic
  {
    var path := TriggerScriptPath(env);
    Registration(path, TriggerScript(TriggerPath(env)),
                 [["chmod", "+x", path]] + ShellCommands(shell, path),
                 ShellInstructions(shell, path))
  }

  /** The three registrars differ only in the commands they run: the script
      they write is the same, and it touches the trigger marker. */
  lemma RegistrarsWriteSameScript(env: Env, s1: Shell, s2: Shell)
    ensures Register(s1, env).script == Register(s2, env).script
    ensures Register(s1, env).scriptPath == Register(s2, env).scriptPath
    ensures Text.Contains(Register(s1, env).script, "touch " + TriggerPath(env))
  {
    ScriptTouchesTrigger(TriggerPath(env));
  }

  lemma ScriptTouchesTrigger(triggerPath: string)
    ensures Text.Contains(TriggerScript(triggerPath), "touch " + triggerPath)
  {
    var sub := "touch " + triggerPath;
    var script := TriggerScript(triggerPath);
    assert script == "#!/bin/sh\n" + sub + "\n";
    assert script[10..10 + |sub|] == sub;
    assert Text.OccursAt(script, sub, 10);
  }

  /** What `start_global_hotkey_service` starts. */
  datatype ServicePlan =
    | X11Monitor(triggerPath: string)
    | WaylandPoll(shell: Shell, registration: Registration, triggerPath: string)

  /** On X11 a key-grab thread; on Wayland a registrar for the detected
      shell followed, whatever the shell, by the trigger-file poll thread. */
  function StartService(env: Env): (r: ServicePlan)
    ensures r.X11Monitor? <==> HotkeyDisplayServer(env) == HotkeyX11
    ensures r.triggerPath == TriggerPath(env)
    ensures r.WaylandPoll? ==> r.shell == DetectShell(env) && r.registration == Register(r.shell, env)
  {
    if HotkeyDisplayServer(env) == HotkeyX11 then X11Monitor(TriggerPath(env))
    else
      var shell := DetectShell(env);
      WaylandPoll(shell, Register(shell, env), TriggerPath(env))
  }

  // ---------------------------------------------------------------------
  // Debounce guard

  const DebounceWindowMs: nat := 1000

  /** `LAST_TRIGGER` starts at 0. */
  const InitialLastTrigger: nat := 0

  datatype Decision = Decision(accepted: bool, last: nat)

  /** One use of the guard at time `now`: accepted iff at least a full window
      has passed; acceptance stores `now`, rejection keeps the stored value. */
  function Debounce(last: nat, now: nat): (d: Decision)
    requires last <= now
    ensures d.accepted <==> now >= last + DebounceWindowMs
    ensures d.accepted ==> d.last == now
    ensures !d.accepted ==> d.last == last
    ensures last <= d.last <= now
  {
    if now - last < DebounceWindowMs then Decision(false, last) else Decision(true, now)
  }

  /** Trigger times that never precede the stored time or each other. */
  ghost predicate Chronological(last: nat, times: seq<nat>) {
    && (forall i :: 0 <= i < |times| ==> last <= times[i])
    && (forall i, j :: 0 <= i < j < |times| ==> times[i] <= times[j])
  }

  /** The triggers the guard lets through when fed `times` in order. */
  function AcceptedTriggers(last: nat, times: seq<nat>): seq<nat>
    requires Chronological(last, times)
    decreases |times|
  {
    if |times| == 0 then []
    else
      var d := Debounce(last, times[0]);
      assert Chronological(d.last, times[1..]);
      (if d.accepted then [times[0]] else []) + AcceptedTriggers(d.last, times[1..])
  }

  /** Each time is a full window after its predecessor, the first a full
      window after `last`. */
  ghost predicate SpacedFrom(last: nat, acc: seq<nat>)
    decreases |acc|
  {
    |acc| == 0 || (last + DebounceWindowMs <= acc[0] && SpacedFrom(acc[0], acc[1..]))
  }

  /** Spacing between neighbours gives spacing between any two. */
  lemma {:induction false} SpacedFromPairwise(last: nat, acc: seq<nat>)
    requires SpacedFrom(last, acc)
    ensures forall k :: 0 <= k < |acc| ==> last + DebounceWindowMs <= acc[k]
    ensures forall i, j :: 0 <= i < j < |acc| ==> acc[i] + DebounceWindowMs <= acc[j]
    decreases |acc|
  {
    if |acc| > 0 {
      var rest := acc[1..];
      SpacedFromPairwise(acc[0], rest);
      forall i, j | 0 <= i < j < |acc|
        ensures acc[i] + DebounceWindowMs <= acc[j]
      {
        assert acc[j] == rest[j - 1];
        if i > 0 {
          assert acc[i] == rest[i - 1];
        }
      }
      forall k | 0 <= k < |acc|
        ensures last + DebounceWindowMs <= acc[k]
      {
        if k > 0 {
          assert acc[k] == rest[k - 1];
        }
      }
    }
  }

  /** The guard only lets through triggers a full window after the previous
      accepted one. */
  lemma {:induction false} AcceptedTriggersSpacedFrom(last: nat, times: seq<nat>)
    requires Chronological(last, times)
    ensures SpacedFrom(last, AcceptedTriggers(last, times))
    decreases |times|
  {
    if |times| > 0 {
      var d := Debounce(last, times[0]);
      assert Chronological(d.last, times[1..]);
      AcceptedTriggersSpacedFrom(d.last, times[1..]);
      var rest := AcceptedTriggers(d.last, times[1..]);
      if d.accepted {
        assert AcceptedTriggers(last, times) == [times[0]] + rest;
        assert ([times[0]] + rest)[1..] == rest;
      } else {
        assert AcceptedTriggers(last, times) == rest;
      }
    }
  }

  /** Any two accepted triggers are at least a full window apart, and the
      first is a full window after the stored time. */
  lemma AcceptedTriggersSpaced(last: nat, times: seq<nat>)
    requires Chronological(last, times)
    ensures forall k :: 0 <= k < |AcceptedTriggers(last, times)| ==>
      last + DebounceWindowMs <= AcceptedTriggers(last, times)[k]
    ensures forall i, j :: 0 <= i < j < |AcceptedTriggers(last, times)| ==>
      AcceptedTriggers(last, times)[i] + DebounceWindowMs <= AcceptedTriggers(last, times)[j]
  {
    AcceptedTriggersSpacedFrom(last, times);
    SpacedFromPairwise(last, AcceptedTriggers(last, times));
  }

  /** The accepted triggers are a selection of the offered ones. */
  lemma {:induction false} AcceptedTriggersOffered(last: nat, times: seq<nat>)
    requires Chronological(last, times)
    ensures forall t :: t in AcceptedTriggers(last, times) ==> t in times
    ensures |AcceptedTriggers(last, times)| <= |times|
    decreases |times|
  {
    if |times| > 0 {
      var d := Debounce(last, times[0]);
      assert Chronological(d.last, times[1..]);
      AcceptedTriggersOffered(d.last, times[1..]);
      assert forall t :: t in times[1..] ==> t in times;
    }
  }

  /** The scenario of two detections 500 ms apart and a third 1100 ms after
      the first: the second collapses into the first, the third gets through. */
  lemma DebounceScenario(t0: nat)
    requires t0 >= 1000
    ensures AcceptedTriggers(InitialLastTrigger, [t0, t0 + 500, t0 + 1100]) == [t0, t0 + 1100]
  {
    var times := [t0, t0 + 500, t0 + 1100];
    assert Chronological(InitialLastTrigger, times);
    assert Chronological(t0, times[1..]);
    assert times[1..][1..] == [t0 + 1100];
    assert Chronological(t0, [t0 + 1100]);
    assert AcceptedTriggers(t0 + 1100, []) == [];
    assert AcceptedTriggers(t0, [t0 + 1100]) == [t0 + 1100];
  }

  // ---------------------------------------------------------------------
  // X11 key matching and grab set (core X11 protocol SETofKEYMASK bits)

  const ShiftMask: bv32 := 1
  const LockMask: bv32 := 2
  const ControlMask: bv32 := 4
  const Mod1Mask: bv32 := 8
  const Mod2Mask: bv32 := 16

  /** Ctrl+Alt, the combination the service listens for. */
  const HotkeyMods: bv32 := ControlMask | Mod1Mask

  /** The masks grabbed on the root window: Ctrl+Alt with every combination
      of Caps Lock and Num Lock. */
  const GrabMasks: seq<bv32> := [
    HotkeyMods,
    HotkeyMods | LockMask,
    HotkeyMods | Mod2Mask,
    HotkeyMods | LockMask | Mod2Mask
  ]

  /** A key press matches when it is the 't' key and its state, with Lock and
      Mod2 cleared, is exactly Ctrl+Alt. */
  predicate KeyMatches(keycode: nat, tKeycode: nat, state: bv32) {
    keycode == tKeycode && state & !(LockMask | Mod2Mask) == HotkeyMods
  }

  /** The grab set and the matcher agree on every state built only from the
      Control, Mod1, Lock and Mod2 bits; any other bit (Shift, say) defeats
      the match. */
  lemma GrabSetIsMatchSet(t: nat, state: bv32)
    ensures state & !(HotkeyMods | LockMask | Mod2Mask) == 0 ==>
      (KeyMatches(t, t, state) <==> state in GrabMasks)
    ensures state in GrabMasks ==> KeyMatches(t, t, state)
    ensures state & ShiftMask != 0 ==> !KeyMatches(t, t, state)
  {
  }

  /** Shift+Ctrl+Alt+T is not the hotkey, with or without the lock bits. */
  lemma ShiftedPressDoesNotMatch(t: nat)
    ensures !KeyMatches(t, t, ShiftMask | HotkeyMods)
    ensures !KeyMatches(t, t, ShiftMask | HotkeyMods | LockMask | Mod2Mask)
    ensures KeyMatches(t, t, HotkeyMods | Mod2Mask)
  {
  }

  /** `monitor_x11_hotkey` set-up: no display or a refused first grab ends the
      thread; otherwise the four masks are grabbed. */
  function X11MonitorGrabs(displayOpened: bool, firstGrabAccepted: bool): (r: Option<seq<bv32>>)
    ensures r.Some? <==> displayOpened && firstGrabAccepted
    ensures r.Some? ==> r.value == GrabMasks
  {
    if !displayOpened || !firstGrabAccepted then None else Some(GrabMasks)
  }

  // ---------------------------------------------------------------------
  // Focus request and the two loop steps

  datatype FocusOutcome =
    | FocusMarkerWritten        // focus-window created for the UI poller
    | XdotoolRaised(windowId: string) // unmap/map/activate through xdotool
    | WmctrlRaised              // the two wmctrl fallbacks

  /** `focus_translator_window`. `firstSearch`/`secondSearch` are the stdout
      of the two `xdotool search --name ^SwiftLingo$` runs (`None` when the
      process could not be started). */
  function FocusTranslatorWindow(env: Env, firstSearch: Option<string>, secondSearch: Option<string>,
                                 now: nat, m: Markers): (r: (Markers, FocusOutcome))
    ensures var windowFound := firstSearch.Some? && firstSearch.value != "";
      r.1 == FocusMarkerWritten <==> !windowFound || HotkeyDisplayServer(env) == HotkeyWayland
    ensures r.1 == FocusMarkerWritten ==> r.0 == m.(focus := Some(Touch(now)))
    ensures r.1 != FocusMarkerWritten ==> r.0 == m
    ensures r.1.XdotoolRaised? <==> r.1 != FocusMarkerWritten && secondSearch.Some? && secondSearch.value != ""
  {
    var windowFound := firstSearch.Some? && firstSearch.value != "";
    if !windowFound || HotkeyDisplayServer(env) == HotkeyWayland then
      (m.(focus := Some(Touch(now))), FocusMarkerWritten)
    else if secondSearch.Some? && secondSearch.value != "" then
      (m, XdotoolRaised(secondSearch.value))
    else
      (m, WmctrlRaised)
  }

  /** Where the Wayland poll thread runs, every focus request becomes the
      `focus-window` marker, whatever xdotool reports. */
  lemma WaylandFocusIsMarker(env: Env, s1: Option<string>, s2: Option<string>, now: nat, m: Markers)
    requires HotkeyDisplayServer(env) == HotkeyWayland
    ensures FocusTranslatorWindow(env, s1, s2, now, m).1 == FocusMarkerWritten
    ensures FocusTranslatorWindow(env, s1, s2, now, m).0.focus == Some(Touch(now))
  {
  }

  datatype HotkeyState = HotkeyState(lastTrigger: nat, markers: Markers)

  const InitialHotkeyState := HotkeyState(InitialLastTrigger, NoMarkers)

  /** One step of a detection loop: the state afterwards, the focus request
      made (if any) and the text captured (if any). */
  datatype Step = Step(state: HotkeyState, focus: Option<FocusOutcome>, captured: Option<string>)

  /** Inputs a loop iteration needs from the outside world. */
  datatype World = World(env: Env, runs: Selection.ToolRuns, firstSearch: Option<string>, secondSearch: Option<string>)

  /** The work after an accepted trigger, in the Wayland thread's order:
      focus first, then capture, then `selection.txt` iff the text is non-empty. */
  function FocusThenCapture(last: nat, m: Markers, now: nat, w: World): (r: Step)
    ensures r.state.lastTrigger == last
    ensures r.focus == Some(FocusTranslatorWindow(w.env, w.firstSearch, w.secondSearch, now, m).1)
    ensures r.captured == Some(Selection.GetSelectedText(w.env, w.runs))
  {
    var (m1, outcome) := FocusTranslatorWindow(w.env, w.firstSearch, w.secondSearch, now, m);
    var text := Selection.GetSelectedText(w.env, w.runs);
    var m2 := if text != "" then m1.(selection := Some(Marker(now, text))) else m1;
    Step(HotkeyState(last, m2), Some(outcome), Some(text))
  }

  /** One iteration of the Wayland trigger-file poll loop at time `now`. */
  function WaylandPollStep(s: HotkeyState, now: nat, w: World): (r: Step)
    requires s.markers.trigger.Some? ==> s.lastTrigger <= now
    // no marker: nothing happens
    ensures s.markers.trigger.None? ==> r == Step(s, None, None)
    // a marker is always consumed
    ensures s.markers.trigger.Some? ==> r.state.markers.trigger.None?
    // rejection: only the marker goes
    ensures s.markers.trigger.Some? && !Debounce(s.lastTrigger, now).accepted ==>
      r == Step(s.(markers := s.markers.(trigger := None)), None, None)
    // acceptance: time stored, focus requested, selection written iff non-empty
    ensures s.markers.trigger.Some? && Debounce(s.lastTrigger, now).accepted ==>
      && r.state.lastTrigger == now
      && r.focus == Some(FocusTranslatorWindow(w.env, w.firstSearch, w.secondSearch, now,
                                               s.markers.(trigger := None)).1)
      && r.captured == Some(Selection.GetSelectedText(w.env, w.runs))
      && (r.captured.value != "" ==> r.state.markers.selection == Some(Marker(now, r.captured.value)))
      && (r.captured.value == "" ==> r.state.markers.selection == s.markers.selection)
    // on Wayland the accepted trigger always leaves a focus marker at `now`
    ensures s.markers.trigger.Some? && Debounce(s.lastTrigger, now).accepted &&
            HotkeyDisplayServer(w.env) == HotkeyWayland ==>
      r.focus == Some(FocusMarkerWritten) && r.state.markers.focus == Some(Touch(now))
  {
    if s.markers.trigger.None? then Step(s, None, None)
    else
      var m := s.markers.(trigger := None);
      var d := Debounce(s.lastTrigger, now);
      if !d.accepted then Step(HotkeyState(s.lastTrigger, m), None, None)
      else FocusThenCapture(now, m, now, w)
  }

  /** When every selection tool fails, an accepted Wayland trigger still
      writes `selection.txt` — with a failure text as its content. */
  lemma WaylandPollWritesFailureText(s: HotkeyState, now: nat, w: World)
    requires s.lastTrigger <= now && s.markers.trigger.Some?
    requires Debounce(s.lastTrigger, now).accepted
    requires Selection.ChainFailed(w.env, w.runs)
    ensures var r := WaylandPollStep(s, now, w);
      r.state.markers.selection.Some? && Selection.IsFailureText(r.state.markers.selection.value.content)
  {
    Selection.FailureIsNeverEmpty(w.env, w.runs);
  }

  /** One handled key press of the X11 monitor thread at time `now`. */
  function X11PressStep(s: HotkeyState, keycode: nat, tKeycode: nat, state: bv32, now: nat, w: World): (r: Step)
    requires KeyMatches(keycode, tKeycode, state) ==> s.lastTrigger <= now
    // a non-matching or debounced press changes nothing
    ensures !KeyMatches(keycode, tKeycode, state) ==> r == Step(s, None, None)
    ensures KeyMatches(keycode, tKeycode, state) && !Debounce(s.lastTrigger, now).accepted ==>
      r == Step(s, None, None)
    // an accepted press creates the trigger file and captures the selection
    ensures KeyMatches(keycode, tKeycode, state) && Debounce(s.lastTrigger, now).accepted ==>
      && r.state.lastTrigger == now
      && r.state.markers.trigger == Some(Touch(now))
      && r.captured == Some(Selection.GetSelectedText(w.env, w.runs))
      // focus and selection.txt only for a non-empty capture
      && (r.captured.value == "" <==> r.focus.None?)
      && (r.captured.value != "" ==> r.state.markers.selection == Some(Marker(now, r.captured.value)))
      && (r.captured.value == "" ==> r.state.markers == s.markers.(trigger := Some(Touch(now))))
  {
    if !KeyMatches(keycode, tKeycode, state) then Step(s, None, None)
    else
      var d := Debounce(s.lastTrigger, now);
      if !d.accepted then Step(s, None, None)
      else
        var m := s.markers.(trigger := Some(Touch(now)));
        var text := Selection.GetSelectedText(w.env, w.runs);
        if text == "" then Step(HotkeyState(now, m), None, Some(text))
        else
          var m1 := m.(selection := Some(Marker(now, text)));
          var (m2, outcome) := FocusTranslatorWindow(w.env, w.firstSearch, w.secondSearch, now, m1);
          Step(HotkeyState(now, m2), Some(outcome), Some(text))
  }

  /** Both loop steps move the stored trigger time exactly as the debounce
      guard does, so the spacing of `AcceptedTriggersSpaced` holds for them. */
  lemma StepsFollowDebounce(s: HotkeyState, keycode: nat, tKeycode: nat, state: bv32, now: nat, w: World)
    requires s.lastTrigger <= now
    ensures s.markers.trigger.Some? ==>
      WaylandPollStep(s, now, w).state.lastTrigger == Debounce(s.lastTrigger, now).last
    ensures KeyMatches(keycode, tKeycode, state) ==>
      X11PressStep(s, keycode, tKeycode, state, now, w).state.lastTrigger == Debounce(s.lastTrigger, now).last
  {
  }
}
