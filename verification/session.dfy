/** One activation of the switcher: the setup that captures compositor state,
    labels and places the windows, and the key handler that focuses a window and
    restores the captured state. Compositor requests appear as effect values. */
module Session {
  import opened Types
  import opened Wrappers
  import opened Seqs
  import opened Snapshot
  import opened Labels
  import opened Placement
  import opened Keypress

  datatype FullscreenType = Real | Maximize | NoParam

  /** A compositor request: setting the dim-inactive keyword, cycling focus to
      the next window, toggling fullscreen, or focusing a window. */
  datatype Effect =
    | SetDim(value: string)
    | CycleNext
    | ToggleFullscreen(kind: FullscreenType)
    | Focus(address: Address)

  /** The value the dim-inactive keyword is switched on with. */
  const DimOn: string := "1"

  /** The fullscreen mode recorded when the active window is not fullscreen. */
  const NotFullscreen: int := -1

  /** What the key handler holds: the label map, the alphabet, and the two
      restoration values captured during setup. */
  datatype Armed = Armed(
    assignments: map<char, Address>,
    labels: string,
    dimInitial: string,
    fullscreenMode: int)

  /** Why setup stops before the overlay is shown: the program panics. */
  datatype SetupError = NoWindows | TooFewLabels

  datatype Activation =
    | FastPath(effects: seq<Effect>)
    | Overlay(effects: seq<Effect>, plan: seq<Item>, session: Armed)
    | Aborted(error: SetupError, effects: seq<Effect>)

  datatype KeyResult = KeyResult(closed: bool, effects: seq<Effect>)

  /** The value the dim-inactive keyword holds after the effects, when any of
      them sets it. */
  function LastDim(effects: seq<Effect>): Option<string>
  {
    if effects == [] then None
    else if effects[|effects| - 1].SetDim? then Some(effects[|effects| - 1].value)
    else LastDim(effects[..|effects| - 1])
  }

  /** How many fullscreen toggles the effects contain. */
  function Toggles(effects: seq<Effect>): nat
  {
    if effects == [] then 0
    else (if effects[0].ToggleFullscreen? then 1 else 0) + Toggles(effects[1..])
  }

  lemma {:induction false} LastDimAppend(a: seq<Effect>, b: seq<Effect>)
    ensures LastDim(a + b) == if LastDim(b).Some? then LastDim(b) else LastDim(a)
  {
    if b != [] {
      assert (a + b)[..|a + b| - 1] == a + b[..|b| - 1];
      LastDimAppend(a, b[..|b| - 1]);
    } else {
      assert a + b == a;
    }
  }

  lemma {:induction false} TogglesAppend(a: seq<Effect>, b: seq<Effect>)
    ensures Toggles(a + b) == Toggles(a) + Toggles(b)
  {
    if a == [] {
      assert a + b == b;
    } else {
      assert (a + b)[1..] == a[1..] + b;
      TogglesAppend(a[1..], b);
    }
  }

  /** The fullscreen mode to restore: the active window's mode when it was
      fullscreen, otherwise the "not fullscreen" marker. */
  function CapturedMode(active: Client): (m: int)
    ensures active.fullscreen ==> m == active.fullscreenMode
    ensures m != NotFullscreen ==> active.fullscreen
  {
    if active.fullscreen then active.fullscreenMode else NotFullscreen
  }

  /** The toggle that restores a captured mode: full fullscreen for 0, maximised
      for 1, the compositor's default for any other mode. */
  function FullscreenKind(mode: int): (k: FullscreenType)
    ensures k == Real <==> mode == 0
    ensures k == Maximize <==> mode == 1
  {
    if mode == 0 then Real else if mode == 1 then Maximize else NoParam
  }

  /** The overlay contents, one item per labelled window in order. */
  function Plan(es: seq<Labelled>, activeWorkspace: int, p: Position, b: int): seq<Item>
  {
    seq(|es|, k requires 0 <= k < |es| => Render(es[k].window, Glyph(es[k].key), activeWorkspace, p, b))
  }

  /** Dim-inactive switched on, when the configuration asks for it. */
  function DimOnEffects(config: AppConfig): (e: seq<Effect>)
    ensures LastDim(e) == (if config.dimInactive then Some(DimOn) else None)
    ensures Toggles(e) == 0
  {
    if config.dimInactive then
      assert [SetDim(DimOn)][1..] == [];
      [SetDim(DimOn)]
    else []
  }

  /** Fullscreen switched off with the default toggle, when the active window
      is fullscreen. */
  function FullscreenOffEffects(active: Client): (e: seq<Effect>)
    ensures LastDim(e) == None
    ensures Toggles(e) == (if active.fullscreen then 1 else 0)
  {
    if active.fullscreen then
      assert [ToggleFullscreen(NoParam)][..0] == [] && [ToggleFullscreen(NoParam)][1..] == [];
      [ToggleFullscreen(NoParam)]
    else []
  }

  /** Setup past the fast-path test: fullscreen is switched off, labels are
      drawn for the snapshot, and the key handler is armed with the captured
      restoration values. */
  function Arm(config: AppConfig, dimInitial: string, active: Client, windows: seq<Window>, activeWorkspace: int): (a: Activation)
    ensures a.Overlay? || (a.Aborted? && a.error == TooFewLabels)
    ensures a.Aborted? <==> |config.labels| < |Eligible(windows, config.ignoreCurrent)|
    ensures a.effects == DimOnEffects(config) + FullscreenOffEffects(active)
    ensures LastDim(a.effects) == (if config.dimInactive then Some(DimOn) else None)
    ensures Toggles(a.effects) == (if active.fullscreen then 1 else 0)
    ensures a.Overlay? ==>
      && a.session.dimInitial == dimInitial
      && a.session.labels == config.labels
      && a.session.fullscreenMode == CapturedMode(active)
  {
    var effects := DimOnEffects(config) + FullscreenOffEffects(active);
    LastDimAppend(DimOnEffects(config), FullscreenOffEffects(active));
    TogglesAppend(DimOnEffects(config), FullscreenOffEffects(active));
    match AssignLabels(windows, config.labels, config.ignoreCurrent)
    case Failure(_) => Aborted(TooFewLabels, effects)
    case Success(es) =>
      Overlay(effects,
              Plan(es, activeWorkspace, config.labelPosition, config.boxSize),
              Armed(LabelMap(es), config.labels, dimInitial, CapturedMode(active)))
  }

  /** The fast path's effects: dim-inactive on when configured, a cycle to the
      next window, and the dim-inactive value read at start written back. */
  function CycleEffects(config: AppConfig, dimInitial: string): (e: seq<Effect>)
    ensures LastDim(e) == Some(dimInitial)
    ensures Toggles(e) == 0
    ensures CycleNext in e
  {
    var tail := [CycleNext, SetDim(dimInitial)];
    LastDimAppend(DimOnEffects(config), tail);
    TogglesAppend(DimOnEffects(config), tail);
    assert tail[1..] == [SetDim(dimInitial)] && tail[1..][1..] == [];
    assert tail[|tail| - 1] == SetDim(dimInitial);
    DimOnEffects(config) + tail
  }

  /** Setup of one activation, given the configuration, the dim-inactive value
      read at start, the active client and the client list. The two aborts are
      the program's panics: nothing sent before them is undone. */
  function Activate(config: AppConfig, dimInitial: string, active: Client, clients: seq<Client>): (a: Activation)
    ensures var ws := GetWindows(active, clients, config.ignoreWorkspace).0;
      && (a.Aborted? && a.error == NoWindows <==> |ws| == 0)
      && (a.FastPath? <==> 0 < |ws| < config.cycleBefore)
      && (a.Aborted? && a.error == TooFewLabels <==>
            0 < |ws| && config.cycleBefore <= |ws| && |config.labels| < |Eligible(ws, config.ignoreCurrent)|)
    ensures a.FastPath? ==> LastDim(a.effects) == Some(dimInitial) && Toggles(a.effects) == 0
    ensures a.Aborted? ==> LastDim(a.effects) == (if config.dimInactive then Some(DimOn) else None)
    ensures a.Aborted? ==> Toggles(a.effects) == (if a.error == TooFewLabels && active.fullscreen then 1 else 0)
    ensures a.Overlay? ==>
      && a.session.dimInitial == dimInitial
      && a.session.labels == config.labels
      && a.session.fullscreenMode == CapturedMode(active)
      && LastDim(a.effects) == (if config.dimInactive then Some(DimOn) else None)
      && Toggles(a.effects) == (if active.fullscreen then 1 else 0)
  {
    var snapshot := GetWindows(active, clients, config.ignoreWorkspace);
    if |snapshot.0| == 0 then Aborted(NoWindows, DimOnEffects(config))
    else if |snapshot.0| < config.cycleBefore then FastPath(CycleEffects(config, dimInitial))
    else Arm(config, dimInitial, active, snapshot.0, snapshot.1)
  }

  /** One key press on the armed overlay. A closing press focuses the chosen
      window (if any), restores the dim-inactive value captured at start, and
      toggles fullscreen back when it was switched off during setup. */
  function OnKey(s: Armed, key: string): (r: KeyResult)
    requires key != ""
    ensures r.closed == HandleKeypress(s.assignments, key, s.labels).terminate
    ensures !r.closed ==> r.effects == []
    ensures r.closed ==> LastDim(r.effects) == Some(s.dimInitial)
    ensures Toggles(r.effects) == (if r.closed && s.fullscreenMode != NotFullscreen then 1 else 0)
  {
    var o := HandleKeypress(s.assignments, key, s.labels);
    var focus := if o.focus.Some? then [Focus(o.focus.value)] else [];
    if !o.terminate then KeyResult(false, focus)
    else
      var restoreFullscreen :=
        if s.fullscreenMode != NotFullscreen then [ToggleFullscreen(FullscreenKind(s.fullscreenMode))] else [];
      LastDimAppend(focus + [SetDim(s.dimInitial)], restoreFullscreen);
      LastDimAppend(focus, [SetDim(s.dimInitial)]);
      TogglesAppend(focus + [SetDim(s.dimInitial)], restoreFullscreen);
      TogglesAppend(focus, [SetDim(s.dimInitial)]);
      KeyResult(true, focus + [SetDim(s.dimInitial)] + restoreFullscreen)
  }

  predicate KeyNames(keys: seq<string>)
  {
    forall i :: 0 <= i < |keys| ==> keys[i] != ""
  }

  /** A sequence of key presses: ignored presses do nothing, and the first
      closing press ends the session (the overlay is gone, later keys are not
      delivered). */
  function Run(s: Armed, keys: seq<string>): (r: KeyResult)
    requires KeyNames(keys)
    ensures !r.closed ==> r.effects == []
    ensures r.closed ==> LastDim(r.effects) == Some(s.dimInitial)
  {
    if keys == [] then KeyResult(false, [])
    else
      var r := OnKey(s, keys[0]);
      if r.closed then r else Run(s, keys[1..])
  }

  /** The session's effects are those of its first closing key press. */
  lemma {:induction false} RunStopsAtFirstClose(s: Armed, keys: seq<string>) returns (i: nat)
    requires KeyNames(keys)
    requires Run(s, keys).closed
    ensures i < |keys|
    ensures OnKey(s, keys[i]).closed
    ensures forall j :: 0 <= j < i ==> !OnKey(s, keys[j]).closed
    ensures Run(s, keys) == OnKey(s, keys[i])
  {
    if OnKey(s, keys[0]).closed {
      i := 0;
    } else {
      var i' := RunStopsAtFirstClose(s, keys[1..]);
      i := i' + 1;
      assert keys[1..][i'] == keys[i];
      forall j | 0 <= j < i
        ensures !OnKey(s, keys[j]).closed
      {
        if j > 0 {
          assert keys[1..][j - 1] == keys[j];
        }
      }
    }
  }

  /** Escape closes the overlay and restores the dim-inactive value, unless
      "Escape" is itself a substring of the label alphabet. */
  lemma EscapeCloses(s: Armed)
    requires !Contains(s.labels, "Escape")
    ensures OnKey(s, "Escape").closed
    ensures !(exists e :: e in OnKey(s, "Escape").effects && e.Focus?)
    ensures LastDim(OnKey(s, "Escape").effects) == Some(s.dimInitial)
  {
    KeypressCancels(s.assignments, "Escape", s.labels);
  }

  /** The order of a closing press's effects: focus first (when a window was
      chosen), then the dim-inactive restore, then the fullscreen restore with
      the toggle kind matching the captured mode. */
  lemma ClosingEffects(s: Armed, key: string)
    requires key != ""
    requires OnKey(s, key).closed
    ensures var e := OnKey(s, key).effects;
      var o := HandleKeypress(s.assignments, key, s.labels);
      var f := if o.focus.Some? then 1 else 0;
      && |e| == f + 1 + (if s.fullscreenMode != NotFullscreen then 1 else 0)
      && (o.focus.Some? ==> e[0] == Focus(o.focus.value))
      && e[f] == SetDim(s.dimInitial)
      && (s.fullscreenMode != NotFullscreen ==> e[f + 1] == ToggleFullscreen(FullscreenKind(s.fullscreenMode)))
  {
  }

  /** Every way a shown overlay closes leaves the dim-inactive keyword at the
      value read at start. */
  lemma SessionRestoresDim(config: AppConfig, dimInitial: string, active: Client, clients: seq<Client>, keys: seq<string>)
    requires KeyNames(keys)
    requires Activate(config, dimInitial, active, clients).Overlay?
    requires Run(Activate(config, dimInitial, active, clients).session, keys).closed
    ensures var a := Activate(config, dimInitial, active, clients);
      LastDim(a.effects + Run(a.session, keys).effects) == Some(dimInitial)
  {
    var a := Activate(config, dimInitial, active, clients);
    LastDimAppend(a.effects, Run(a.session, keys).effects);
  }

  /** Fullscreen is switched off during setup exactly when the active window was
      fullscreen, and a closed session switches it back on with the captured
      mode, so the toggles pair up. */
  lemma SessionRestoresFullscreen(config: AppConfig, dimInitial: string, active: Client, clients: seq<Client>, keys: seq<string>)
    requires KeyNames(keys)
    requires active.fullscreen ==> active.fullscreenMode != NotFullscreen
    requires Activate(config, dimInitial, active, clients).Overlay?
    requires Run(Activate(config, dimInitial, active, clients).session, keys).closed
    ensures var a := Activate(config, dimInitial, active, clients);
      var all := a.effects + Run(a.session, keys).effects;
      && Toggles(all) == (if active.fullscreen then 2 else 0)
      && (active.fullscreen ==> all[|all| - 1] == ToggleFullscreen(FullscreenKind(active.fullscreenMode)))
  {
    var a := Activate(config, dimInitial, active, clients);
    var r := Run(a.session, keys);
    var i := RunStopsAtFirstClose(a.session, keys);
    TogglesAppend(a.effects, r.effects);
    ClosingEffects(a.session, keys[i]);
  }

  /** The fast path: fewer windows than the threshold means no overlay, a cycle
      to the next window, and the dim-inactive value restored. */
  lemma FastPathEffects(config: AppConfig, dimInitial: string, active: Client, clients: seq<Client>)
    requires Activate(config, dimInitial, active, clients).FastPath?
    ensures Activate(config, dimInitial, active, clients).effects ==
      (if config.dimInactive then [SetDim(DimOn)] else []) + [CycleNext, SetDim(dimInitial)]
  {
  }

  /** The effects sent by a setup that does not take the fast path: dim-inactive
      on when configured, then fullscreen off with the default toggle when the
      active window is fullscreen. An empty snapshot stops before the fullscreen
      test, so it only ever switches dim-inactive on. */
  lemma SetupEffects(config: AppConfig, dimInitial: string, active: Client, clients: seq<Client>)
    ensures var a := Activate(config, dimInitial, active, clients);
      a.Overlay? || (a.Aborted? && a.error == TooFewLabels) ==>
        a.effects == (if config.dimInactive then [SetDim(DimOn)] else [])
                     + (if active.fullscreen then [ToggleFullscreen(NoParam)] else [])
    ensures var a := Activate(config, dimInitial, active, clients);
      a.Aborted? && a.error == NoWindows ==>
        a.effects == (if config.dimInactive then [SetDim(DimOn)] else [])
  {
  }

  /** The overlay shows one item per eligible window, in snapshot order: the
      k-th shows the glyph of the k-th alphabet character, as a list row when the
      window is off the active workspace and as a placed box otherwise. */
  lemma OverlayPlan(config: AppConfig, dimInitial: string, active: Client, clients: seq<Client>)
    requires Activate(config, dimInitial, active, clients).Overlay?
    ensures var a := Activate(config, dimInitial, active, clients);
      var e := Eligible(GetWindows(active, clients, config.ignoreWorkspace).0, config.ignoreCurrent);
      && |a.plan| == |e| <= |config.labels|
      && forall k :: 0 <= k < |e| ==>
           && a.plan[k].glyph == Glyph(config.labels[k])
           && (a.plan[k].Row? <==> e[k].workspace != active.workspace)
           && (a.plan[k].Row? ==> a.plan[k].title == e[k].title)
           && (a.plan[k].Placed? ==>
                 (a.plan[k].x, a.plan[k].y)
                 == Anchor(config.labelPosition, e[k].position.0, e[k].position.1, e[k].size.0, e[k].size.1, config.boxSize))
  {
  }

  /** List rows only arise with the workspace filter off: with it on, every
      snapshot window is on the active workspace, so every item of the overlay
      is a placed box. */
  lemma FilteredOverlayAllPlaced(config: AppConfig, dimInitial: string, active: Client, clients: seq<Client>)
    requires !config.ignoreWorkspace
    requires Activate(config, dimInitial, active, clients).Overlay?
    ensures var plan := Activate(config, dimInitial, active, clients).plan;
      forall k :: 0 <= k < |plan| ==> plan[k].Placed?
  {
    var ws := GetWindows(active, clients, false).0;
    var e := Eligible(ws, config.ignoreCurrent);
    var idx := WorkspaceFilter(active, clients);
    OverlayPlan(config, dimInitial, active, clients);
    forall k | 0 <= k < |e|
      ensures e[k].workspace == active.workspace
    {
      assert e[k] in e;
    }
  }

  /** With a duplicate-free alphabet, the label map of a shown overlay sends the
      k-th alphabet character, as drawn and not as displayed, to the k-th
      eligible window, including windows listed as rows; no other character is
      a key. */
  lemma OverlayAssignments(config: AppConfig, dimInitial: string, active: Client, clients: seq<Client>)
    requires Distinct(config.labels)
    requires Activate(config, dimInitial, active, clients).Overlay?
    ensures var m := Activate(config, dimInitial, active, clients).session.assignments;
      var e := Eligible(GetWindows(active, clients, config.ignoreWorkspace).0, config.ignoreCurrent);
      && |m| == |e|
      && (forall c :: c in m <==> c in config.labels[..|e|])
      && (forall k :: 0 <= k < |e| ==> config.labels[k] in m && m[config.labels[k]] == e[k].address)
  {
    var ws := GetWindows(active, clients, config.ignoreWorkspace).0;
    AssignedMap(ws, config.labels, config.ignoreCurrent);
  }

  /** Pressing the k-th alphabet character on a shown overlay focuses the k-th
      eligible window, restores the dim-inactive value, and closes the overlay. */
  lemma PressLabelFocuses(config: AppConfig, dimInitial: string, active: Client, clients: seq<Client>, k: nat)
    requires Distinct(config.labels)
    requires Activate(config, dimInitial, active, clients).Overlay?
    requires k < |Eligible(GetWindows(active, clients, config.ignoreWorkspace).0, config.ignoreCurrent)|
    ensures var a := Activate(config, dimInitial, active, clients);
      var e := Eligible(GetWindows(active, clients, config.ignoreWorkspace).0, config.ignoreCurrent);
      var r := OnKey(a.session, [config.labels[k]]);
      && r.closed
      && r.effects[0] == Focus(e[k].address)
      && r.effects[1] == SetDim(dimInitial)
  {
    var a := Activate(config, dimInitial, active, clients);
    OverlayAssignments(config, dimInitial, active, clients);
    ContainsSingle(config.labels, config.labels[k]);
    ClosingEffects(a.session, [config.labels[k]]);
  }

  /** An alphabet character not drawn for any window is ignored when pressed. */
  lemma PressUnassignedIgnored(config: AppConfig, dimInitial: string, active: Client, clients: seq<Client>, k: nat)
    requires Distinct(config.labels)
    requires Activate(config, dimInitial, active, clients).Overlay?
    requires |Eligible(GetWindows(active, clients, config.ignoreWorkspace).0, config.ignoreCurrent)| <= k < |config.labels|
    ensures var r := OnKey(Activate(config, dimInitial, active, clients).session, [config.labels[k]]);
      !r.closed && r.effects == []
  {
    var e := Eligible(GetWindows(active, clients, config.ignoreWorkspace).0, config.ignoreCurrent);
    OverlayAssignments(config, dimInitial, active, clients);
    ContainsSingle(config.labels, config.labels[k]);
    assert config.labels[k] !in config.labels[..|e|];
  }

  /** With an all lower-case alphabet, pressing the displayed capital of a label
      does nothing: lookups use the drawn character, never the glyph. */
  lemma PressGlyphIgnored(config: AppConfig, dimInitial: string, active: Client, clients: seq<Client>, k: nat)
    requires forall i :: 0 <= i < |config.labels| ==> 'a' <= config.labels[i] <= 'z'
    requires Activate(config, dimInitial, active, clients).Overlay?
    requires k < |config.labels|
    ensures var r := OnKey(Activate(config, dimInitial, active, clients).session, [Glyph(config.labels[k])]);
      !r.closed && r.effects == []
  {
    var g := Glyph(config.labels[k]);
    ContainsSingle(config.labels, g);
    assert g !in config.labels;
    assert [g] != "Escape";
  }
}
