# hyprland-easyfocus, modelled in Dafny

hyprland-easyfocus is a window switcher for the Hyprland compositor. When it is
activated it reads the client list, gives every window a one-character label
drawn from a configured alphabet, and shows those labels in a full-screen overlay.
Typing a label focuses that window. The program also dims inactive windows while
the overlay is up and switches fullscreen off. It restores both when the overlay
closes. With few windows it skips the overlay and cycles focus instead.

This project models the logic of `src/main.rs` as pure functions over a snapshot
of compositor state. Compositor requests are returned as `Effect` values rather
than performed:

- `wrappers.dfy`: `Option` and `Result`.
- `seqs.dfy`: an order-preserving `Filter` and the lemma describing exactly which
  positions it keeps.
- `types.dfy`: `Client`, `Window`, `Position` and `AppConfig`.
- `snapshot.dfy`: client-to-window conversion and the workspace filter of
  `get_windows`.
- `labels.dfy`: drawing alphabet characters for eligible windows, the
  character-to-address map, and the displayed glyph.
- `placement.dfy`: truncating division and the seven anchor formulas. It also
  classifies each window as a placed box or a list row.
- `keypress.dfy`: the decision `handle_keypress` takes for one key name.
- `session.dfy`: setup (`Activate`), the key callback (`OnKey`), a key sequence
  (`Run`), and the end-to-end properties.

Inputs that come from IPC in the program are parameters here: the active client,
the client list, and the dim-inactive value read at start. The requests the
program sends are `Effect` values: `SetDim`, `CycleNext`, `ToggleFullscreen` and
`Focus`.

## Notable behaviour

- The snapshot is kept in the order the compositor lists the clients. It is not
  sorted by workspace. Grouped or tabbed windows get no special placement.
- The `BottomRight` anchor yields the window origin, exactly like `TopLeft`
  (`src/main.rs:275`). `Placement.BottomRightIsTopLeft` states this.
- An empty snapshot, and more eligible windows than alphabet characters, are
  panics. `Activate` returns `Aborted` for them, carrying the effects already
  sent, and nothing is undone:
  - An empty snapshot stops before the fullscreen test (`src/main.rs:152-153`).
    Its only possible effect is dim-inactive switched on, when configured.
    Fullscreen is left as it was.
  - Too few labels stops after fullscreen was switched off
    (`src/main.rs:172-177`, `215`). Dim-inactive stays on when configured, and
    fullscreen stays off when the active window was fullscreen.
- The fast path runs whenever there are fewer windows than `cycle_before`. It
  does not look at which workspaces the windows are on. It writes the initial
  dim-inactive value back even when dim-inactive was never switched on.
- Key matching is a substring test on the whole key name, followed by a lookup
  of its first character. A key name that is not in the alphabet closes the
  overlay only when it is `Escape`. Shifted letters are not normalised, so the
  displayed capital of a lower-case label is ignored when pressed.

## Model

| member | source | states |
|---|---|---|
| Snapshot.GetWindows | src/main.rs:77-94 | the reported workspace is the active client's; the snapshot never has more windows than the client list |
| Snapshot.WorkspaceFilter | src/main.rs:83-93 | with the filter on, the windows are exactly the clients on the active workspace, in list order, each carrying the client's title, address, position and size; a window is current exactly when its focus-history rank is 0 |
| Snapshot.AllWorkspaces | src/main.rs:83-85 | with the filter off, the snapshot is the whole client list in list order, each window carrying its client's workspace, title, address, position and size, current exactly when its focus-history rank is 0 |
| Labels.AssignLabels | src/main.rs:208-216 | succeeds exactly when the alphabet covers the eligible windows; the k-th eligible window takes the k-th character, and a skipped current window consumes none |
| Labels.LabelMap | src/main.rs:217 | the definition: the character-to-address map built by inserting each labelled window in order, a later insert under the same character replacing an earlier one; its properties are stated by `LabelMapKeys`, `LabelMapLookup`, `LabelMapSize` and `LabelMapDistinct` |
| Labels.LabelMapKeys | src/main.rs:217 | the map's keys are exactly the characters drawn |
| Labels.LabelMapLookup | src/main.rs:217 | a drawn character maps to its window's address unless a later window drew the same character, in which case the later insertion wins |
| Labels.LabelMapSize | src/main.rs:208-217 | with distinct characters the map has one entry per labelled window |
| Labels.LabelMapLookupDistinct | src/main.rs:217 | with distinct characters every labelled window is found under its own character |
| Labels.LabelMapDistinct | src/main.rs:208-217 | with distinct characters the map has one entry per labelled window, its keys are the drawn characters, and each finds its window |
| Labels.AssignedMap | src/main.rs:208-217 | with a duplicate-free alphabet, the map holds exactly the first n characters, one per eligible window, and the k-th character finds the k-th eligible window |
| Labels.EligibleAddressesDistinct | src/main.rs:210-213 | skipping the current window keeps the snapshot's addresses distinct |
| Labels.AssignedMapInjective | src/main.rs:208-217 | with distinct addresses and characters, no address is found under two characters |
| Labels.Glyph | src/main.rs:219-221 | a letter is shown as the capital of the same letter; any other character is shown unchanged |
| Placement.TruncDiv | src/main.rs:255-279 | the quotient rounds toward zero: the remainder is smaller than the divisor and has the dividend's sign |
| Placement.TruncDivNonNegative | src/main.rs:255-279 | on non-negative sizes truncating and Euclidean division agree |
| Placement.Anchor | src/main.rs:255-280 | the definition: the seven anchor formulas as written, BottomRight included, with Rust's truncating `/` as `TruncDiv`; its properties are stated by `AnchorInside`, `AnchorEdges` and `BottomRightIsTopLeft` |
| Placement.AnchorInside | src/main.rs:255-280 | for every anchor, a box no larger than its window lies inside the window |
| Placement.AnchorEdges | src/main.rs:255-280 | which window edges each anchor is flush with, and that the centred anchors are centred to within one pixel |
| Placement.BottomRightIsTopLeft | src/main.rs:275 | BottomRight places the box at the window origin, like TopLeft, so it reaches the right edge only when box and window are equally wide |
| Placement.Render | src/main.rs:223-287 | an off-workspace window becomes a row with its glyph and title; a window on the active workspace becomes a box at its anchor, marked current when it is the current window |
| Placement.RenderInside | src/main.rs:255-280 | a box no larger than its window is drawn inside that window |
| Keypress.HandleKeypress | src/main.rs:103-121 | a focus always closes the overlay and targets an assigned address; closing without focus happens only for Escape |
| Keypress.ContainsSingle | src/main.rs:104 | a one-character key name passes the substring test exactly when the character is in the alphabet |
| Keypress.KeypressFocuses | src/main.rs:104-113 | a window is focused exactly when the key name occurs in the alphabet and its first character is assigned, and it is the window assigned to that character |
| Keypress.KeypressCancels | src/main.rs:114-117 | the overlay closes without focus exactly for Escape when Escape does not occur in the alphabet |
| Keypress.KeypressIgnored | src/main.rs:109-120 | a key is ignored exactly when its first character is unassigned, or when it is neither in the alphabet nor Escape; an ignored key focuses nothing |
| Session.Activate | src/main.rs:146-177 | an empty snapshot aborts without touching fullscreen; fewer windows than the threshold take the fast path, which restores the dim value without touching fullscreen; too short an alphabet aborts with dim left as set and fullscreen left off; otherwise the overlay is armed with the captured dim value and fullscreen mode, and fullscreen has been switched off once if it was on |
| Session.FastPathEffects | src/main.rs:158-165 | the fast path's effects are exactly: dim on (when configured), cycle to the next window, restore the initial dim value |
| Session.SetupEffects | src/main.rs:146-177 | past the threshold, setup sends exactly dim on (when configured) then the default fullscreen toggle (when the active window is fullscreen); an empty snapshot sends at most dim on |
| Session.DimOnEffects | src/main.rs:146-148 | switching dim-inactive on, when configured, sets it to on and toggles nothing |
| Session.FullscreenOffEffects | src/main.rs:170-177 | the fullscreen toggle is sent exactly when the active window is fullscreen, and leaves dim-inactive alone |
| Session.CycleEffects | src/main.rs:158-165 | the fast path cycles focus, toggles nothing and ends with the initial dim value |
| Session.CapturedMode | src/main.rs:170-174 | the mode recorded for restoring is the active window's own mode when it is fullscreen; any mode other than -1 means it was fullscreen |
| Session.FullscreenKind | src/main.rs:301-305 | the restoring toggle is full fullscreen exactly for mode 0 and maximised exactly for mode 1, the default otherwise |
| Session.Arm | src/main.rs:168-217 | past the threshold, setup aborts exactly when the alphabet is shorter than the eligible windows; either way it has sent dim on and fullscreen off; when it arms, it captures the initial dim value, the alphabet and the fullscreen mode (-1 when not fullscreen) |
| Session.OnKey | src/main.rs:293-311 | the overlay closes exactly when the key handler says so; an ignored key has no effect; a closing key restores the initial dim value and toggles fullscreen once exactly when a mode was captured |
| Session.Run | src/main.rs:290-314 | a session that never closes has no effect; one that closes ends with the initial dim value restored |
| Session.RunStopsAtFirstClose | src/main.rs:293-311 | the session's effects are those of its first closing key press |
| Session.EscapeCloses | src/main.rs:115-116 | unless "Escape" is a substring of the alphabet, Escape closes the overlay without focusing anything and restores the initial dim value |
| Session.ClosingEffects | src/main.rs:294-310 | a closing press focuses first (when a window was chosen), then restores the dim value, then toggles fullscreen with the kind mapped from the captured mode (0 full, 1 maximised, otherwise default) |
| Session.SessionRestoresDim | src/main.rs:296-297 | after setup and a closing key press, the dim-inactive value is the one read at start |
| Session.SessionRestoresFullscreen | src/main.rs:170-177 | fullscreen toggles pair up over a closed session (two when the active window was fullscreen, none otherwise), and the last effect restores the captured mode |
| Session.OverlayPlan | src/main.rs:210-280 | the overlay shows one item per eligible window in order, with the glyph of its alphabet character, as a row exactly when the window is off the active workspace |
| Session.FilteredOverlayAllPlaced | src/main.rs:203-241 | with the workspace filter on, every overlay item is a placed box; list rows only arise when the filter is off |
| Session.OverlayAssignments | src/main.rs:208-217 | with a duplicate-free alphabet, the armed map keys the raw alphabet characters, one per eligible window, including windows shown as rows |
| Session.PressLabelFocuses | src/main.rs:103-113 | with a duplicate-free alphabet, pressing a key whose name is the k-th alphabet character focuses the k-th eligible window and then restores the dim value |
| Session.PressUnassignedIgnored | src/main.rs:107-110 | with a duplicate-free alphabet, pressing a key whose name is an alphabet character that no window drew is ignored |
| Session.PressGlyphIgnored | src/main.rs:217-221 | with a lower-case alphabet, pressing a label's displayed capital is ignored |

## Left out

- GTK widget construction, the layer-shell setup, `Fixed::put`, CSS classes and
  `setup_css` (`src/main.rs:181-206`, `224-253`, `282-286`, `316-340`). These are
  rendering glue. Only the placement numbers and the row/box split are modelled.
  `workspace_label_width` only sizes a widget, so it is carried in `AppConfig`
  and never used.
- Configuration discovery and deserialisation (`src/main.rs:126-144`). These are
  file I/O and a foreign library, so the configuration is an input.
- The IPC calls (`Client::get_active`, `Clients::get`, `Dispatch::call`,
  `Keyword::get/set`). Their results are inputs and their requests are effects.
  Their failures are panics and are not modelled: every effect is assumed to
  succeed. The "no active window" panic disappears because the active client is
  an input.
- The second active-window query (`src/main.rs:168`) is taken to return the same
  client as the first. The model does not cover the active window changing
  between the two queries.
- `main`, the application event loop and the key-controller wiring
  (`src/main.rs:65-75`, `290-292`, `316`) are callback plumbing. The window
  closing is the `closed` flag of a key result. Keys pressed after it are not
  delivered.
- Two panics on the key name are preconditions instead: `key.name().unwrap()`
  (`src/main.rs:294`) and the first character of an empty key name
  (`src/main.rs:105`). `HandleKeypress`, `OnKey` and `Run` require non-empty
  key names. The model does not cover a key press whose name is missing or
  empty; the source panics on it.
- The mapping from a physical key to its GDK key name (`key.name()`,
  `src/main.rs:294`) is not modelled: key names are taken as given. Letters and
  digits are named by their own character, but punctuation and space keys carry
  names such as "semicolon", "comma" or "space". A label drawn from such a
  character therefore can never be pressed, and the `PressLabelFocuses` and
  `PressUnassignedIgnored` statements about "a key named by the character" only
  describe real key presses for alphanumeric alphabets.
- Floating point: every coordinate is a 32-bit integer converted exactly, so
  coordinates are integers.
- 32-bit overflow in the placement sums is out of scope. Integers are unbounded.
- Labels.Glyph: only ASCII letters are treated as alphabetic and upper-cased. The
  source uses Unicode `is_alphabetic` and takes the first character of
  `to_uppercase`. Non-ASCII characters are shown unchanged here.
- Session.SessionRestoresFullscreen: assumes a fullscreen window never reports
  mode -1. With that mode the source records "not fullscreen" and never toggles
  back. `OnKey` and `Activate` model that case as written.
