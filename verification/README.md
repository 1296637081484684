# A verified model of the Zen OS compositor's logic

Zen OS is a small desktop: a Wayland compositor written in C, and `zen-test`, the Rust tool that
boots it and judges its serial log. This project models the parts of both that decide something -
window focus and dragging, the keybinding registry and its configuration file, the screen lock,
the log watcher, window placement, wallpaper scaling and gate reports - and proves properties of
them over all inputs and whole runs. `dafny verify dfyconfig.toml` checks everything.

## How it is organised

| file | what it holds |
|---|---|
| `Prelude.dfy` | options, sequences without repetitions, truncation |
| `WlList.dfy` | the circular `prev`/`next` list on the heap |
| `Windows.dfy`, `WindowFocus.dfy`, `WindowHistory.dfy`, `WindowDrag.dfy`, `WindowPlacement.dfy`, `WindowShown.dfy` | the window manager as a machine over values, and what holds over runs of it |
| `Placement.dfy` | maximise and fullscreen requests of one window |
| `Toplevels.dfy` | the event handlers over the heap, each proved to take the machine's step |
| `Scanning.dfy`, `Fields.dfy`, `Modifiers.dfy`, `ModifierTokens.dfy`, `Keybinds.dfy`, `KeybindsLoading.dfy` | the configuration scanner, the registry on its list, loading and dispatch |
| `Segments.dfy`, `KeybindsRoundTrip.dfy`, `KeybindsOverride.dfy`, `DefaultKeys.dfy` | the printer of the unit tests, the round trip, what a file can override, and the default keys down to the lock |
| `Lock.dfy`, `KeyRouting.dfy`, `LockScreen.dfy` | the screen lock and keyboard routing, over values and over the password array |
| `Serial.dfy` | log polling and scanning |
| `Wallpaper.dfy`, `Gates.dfy` | aspect-fill scaling; gate results, summary and TAP |

The same thing is usually there twice. `Windows.Step`, `Lock.HandleKey`, `KeyRouting.KeyStep` and
`Keybinds.Load` are functions on values, and the run theorems are about them. The classes
`Toplevels.Compositor`, `LockScreen.Screen`, `LockScreen.Keyboard` and `Keybinds.Registry` and the
scanning methods update fields, arrays and list links in place with the loops of the C code, and
their postconditions say that they do what the functions say.

Conventions. A `char*` into a text is the rest of the text from there on, and the terminating NUL
is its end. `xkb_keysym_from_name`, authentication, memory for lock buffers and bindings,
hit-testing and the contents of files are parameters. A modifier mask is the set of its bits. Doubles are reals, and
the conversion `(int)` is truncation toward zero.

## What the proofs found

- **Focus.** "The focused window is the head of the list" is false: a window that was created but
  not mapped sits in front (`WindowFocus.HeadNeedNotBeFocused`). What holds in every run that unmaps
  before it destroys is that the focus is on the *first mapped* window
  (`WindowFocus.FocusIsFirstMapped`), so it is on the head exactly when the head is mapped
  (`WindowFocus.HeadIsFocusedIff`). Read off the events alone: the focus is on the shown window that was
  mapped or clicked last (`WindowShown.FocusIsLastAsked`). Destroying a mapped, focused window can leave the focus on a
  window that is not shown (`WindowFocus.DestroyWhileMappedCanFail`), and
  `WindowFocus.DestroyKeepsFocusedFirstIff` says exactly when it does not.
- **Seat.** That the seat's keyboard focus is the focused toplevel is false: the seat is not told of
  a toplevel that gains the focus while there is no keyboard, and plugging one in does not tell it
  either (`WindowDrag.SeatCanLag`). Its focus is that of the last change it heard of
  (`WindowDrag.SeatIsLastTold`), and `WindowDrag.SeatAgreesIff` says exactly when the two agree.
- **Overrides.** The header of `keybinds.c` and `docs/ROADMAP.md:407,412` say that the
  configuration file overrides the defaults. Bindings are appended and the first match wins, so it
  cannot: `KeybindsOverride.EntryWorksIff` says exactly which entries take effect,
  `KeybindsOverride.OverrideIsIgnored` is a file with one that does not, and
  `KeybindsLoading.DefaultsSurvive` covers every file on which the parser stays in the text.
- **Modifiers array.** On a text that ends, outside a string, in whitespace or a comma before the
  array is closed, the parser steps over the terminator. `Modifiers.ParseTokens` and
  `ModifierTokens.RunawayIff` state the exact condition for an array, `KeybindsLoading.OverrunFileIff` for a file, and
  `KeybindsOverride.BrokenFileOverruns` is such a file. Nothing is claimed about the registry after
  that.
- **Idle timer.** The timer fires once. When locking fails then, for lack of memory or a surface, the
  session stays unguarded until the screen is locked some other way: `KeyRouting.UnguardedIff`.
- **Password line.** BackSpace takes back a character exactly when the line was not full
  (`Lock.BackspaceUndoesIff`).
- **Log search.** Line-wise and whole-text search agree for exactly the patterns that are not
  empty, contain no line feed and do not end in a carriage return (`Serial.LinesAgreeIff`);
  incremental and naive polling agree for exactly the lists without an empty pattern
  (`Serial.IncrementalIsNaiveIff`).

## Model

| member | source | states |
|---|---|---|
| `WlList.Insert` | tests/unit/compositor/test_xdg.c:46-51 | writing the four links keeps the ring well formed and inserts the element behind the given one |
| `WlList.Remove` | tests/unit/compositor/test_xdg.c:53-58 | joining the neighbours keeps the ring well formed without the element, which is left as a ring of its own |
| `WlList.Append` | src/compositor/src/keybinds.c:184 | inserting behind `head.prev` appends at the tail |
| `WlList.PushFront` | src/compositor/src/xdg.c:488 | inserting behind the head puts the structure first and keeps what the others hold |
| `WlList.MoveToFront` | src/compositor/src/xdg.c:70-71 | remove then insert moves the structure to the front and leaves the others in order |
| `WlList.Discard` | src/compositor/src/xdg.c:242-248 | remove and free takes the structure off the list, and nothing that stays on it has been freed |
| `WlList.Iteration` | tests/unit/compositor/test_xdg.c:82-85 | following `next` from the head visits the structures in list order and comes back to the head |
| `WlList.Drain` | src/compositor/src/keybinds.c:150-155 | the `for_each_safe` loop detaches and frees every structure exactly once, reads nothing freed, ends, and leaves an empty list |
| `Windows.StepConsistent` | src/compositor/src/xdg.c:42-92 | each event keeps: no window listed twice, focus and grab on live windows, exactly the focused window activated, zero grab coordinates without a grab |
| `Windows.AlwaysConsistent` | src/compositor/src/xdg.c:152-249 | the same in every run of events in any order, destroying mapped windows included |
| `WindowFocus.StepFocusedFirst` | src/compositor/src/xdg.c:167-190 | each event in the wlroots order keeps the focus on the first mapped window; destroying then only forgets the window |
| `WindowFocus.FocusIsFirstMapped` | src/compositor/src/xdg.c:152-219 | in every run in that order the focus is on the first mapped window, nowhere exactly when nothing is mapped, and the transfer branch of destroy is never taken |
| `WindowFocus.HeadIsFocusedIff` | src/compositor/src/xdg.c:42-71 | in every such run the focused window is the head of the list exactly when the head is mapped |
| `WindowFocus.HeadNeedNotBeFocused` | src/compositor/src/xdg.c:487-488 | a run of three events after which it is not |
| `WindowFocus.TransferOnDestroy` | src/compositor/src/xdg.c:209-219 | the transfer branch gives the focus to the first other window, mapped or not |
| `WindowFocus.DestroyKeepsFocusedFirstIff` | src/compositor/src/xdg.c:209-219 | destroying keeps the focus on the first mapped window exactly when the window was not focused, was the only one, or the first other one is mapped |
| `WindowFocus.DestroyWhileMappedCanFail` | src/compositor/src/xdg.c:212-217 | a run of four events after which an unmapped window has the focus |
| `WindowHistory.RecencyListIsHistory` | src/compositor/src/xdg.c:48-71 | after any run the list holds the live windows, each once, in reverse order of their last touch, touches being read off creations and changes of focus |
| `WindowHistory.MappedWereFocusedAlways` | src/compositor/src/xdg.c:152-161 | in an orderly run the last touch of a mapped window is a change of focus to it |
| `WindowHistory.UnmapRestoresPreviousFocus` | src/compositor/src/xdg.c:167-190 | when the focused window unmaps the focus leaves it and goes to the other window still shown that held it most recently, to none exactly when no other is shown, shown being read off the events |
| `WindowShown.MappedIffShown` | src/compositor/src/xdg.c:152-219 | a window counts as mapped after a run exactly when some event mapped it and no later one unmapped or destroyed it |
| `WindowShown.FocusIsLastAsked` | src/compositor/src/xdg.c:42-190 | in every orderly run the focus is on the shown window whose last map or click is the latest, nowhere exactly when none is shown |
| `WindowShown.UnmapTakesFocus` | src/compositor/src/xdg.c:167-190 | in every run, orderly or not, unmapping leaves the focus elsewhere: where it was, or on the first other shown window of the list |
| `WindowDrag.DragIsPathIndependent` | src/compositor/src/input.c:332-366 | after any events of one drag the window is at its origin plus the truncated displacement, less than a pixel off, back at the origin with the cursor, and pointer focus is unchanged |
| `WindowDrag.GrabIff` | src/compositor/src/input.c:171-181 | a window is being dragged exactly from a request to move it until a release, its destruction or another request |
| `WindowDrag.CursorIsLast` | src/compositor/src/input.c:143-162 | the cursor is where the last motion event put it |
| `WindowDrag.NoDragNoMove` | src/compositor/src/input.c:332-416 | without a drag the pointer focus is the surface under the cursor at the last motion, and a window that is not placed stays as it is |
| `WindowDrag.ReleaseEndsDrag` | src/compositor/src/input.c:171-181 | the same behind any release until the next request to move |
| `WindowDrag.DragAndRelease` | src/compositor/src/input.c:166-366 | a run of seven events: a drag by twenty pixels, and a motion behind the release that moves the pointer focus alone |
| `WindowDrag.SeatIsLastTold` | src/compositor/src/xdg.c:60-86 | after any run the seat's keyboard focus is the target of the last change of focus that cleared it or met a keyboard; without one it is what it was |
| `WindowDrag.SeatAgreesIff` | src/compositor/src/xdg.c:60-86 | it is the focused toplevel exactly when the last change it heard of left the same toplevel focused as there is now, or, when it heard of none, when none is focused |
| `WindowDrag.SeatCanLag` | src/compositor/src/xdg.c:78-85 | an orderly run after which there is a keyboard and a focused toplevel and the seat has no focus |
| `WindowDrag.SeatFollowsFocus` | src/compositor/src/xdg.c:60-86 | as long as the keyboard is never taken away the seat's keyboard focus is the focused toplevel |
| `Toplevels.Compositor.FocusToplevel` | src/compositor/src/xdg.c:42-92 | on the heap, focusing takes the machine's focus step |
| `Toplevels.Compositor.NextMapped` | src/compositor/src/xdg.c:177-185 | the scan finds the first other mapped window of the list |
| `Toplevels.Compositor.NextOther` | src/compositor/src/xdg.c:210-217 | the scan finds the first other window of the list |
| `Toplevels.Compositor.HandleNew` | src/compositor/src/xdg.c:422-499 | a new, unmapped window enters at the head; without memory or a scene node nothing changes |
| `Toplevels.Compositor.HandleMap` | src/compositor/src/xdg.c:152-165 | mapping takes the machine's step |
| `Toplevels.Compositor.HandleUnmap` | src/compositor/src/xdg.c:167-190 | unmapping takes the machine's step |
| `Toplevels.Compositor.HandleDestroy` | src/compositor/src/xdg.c:199-249 | destroying takes the machine's step, and the structure is off the list and freed |
| `Toplevels.Compositor.HandleRequestMove` | src/compositor/src/xdg.c:251-272 | the grab records window, cursor and node position; without a cursor or a scene node nothing changes |
| `Toplevels.Compositor.HandleButton` | src/compositor/src/input.c:166-206 | a release drops the grab, a press focuses the toplevel that was hit, and either is sent on once to the surface with pointer focus |
| `Toplevels.Compositor.ProcessCursorMotion` | src/compositor/src/input.c:321-416 | with a grab only the grabbed window moves, otherwise only the pointer focus |
| `Toplevels.Compositor.HandleMotion` | src/compositor/src/input.c:143-162 | motion takes the machine's step |
| `Toplevels.Compositor.HandlePlacement` | src/compositor/src/xdg.c:292-396 | a maximise or fullscreen request takes the machine's step: size, state flag and position become those of the chosen output's box, leaving the state gives up the size alone; without an output layout nothing changes |
| `Toplevels.Compositor.ChooseOutput` | src/compositor/src/xdg.c:304-324 | the output that was named, or the one under the node, or the first |
| `Toplevels.Compositor.DestroyAll` | src/compositor/src/xdg.c:124-140 | every toplevel is freed exactly once and the list is empty |
| `Placement.OutputFrom` | tests/unit/compositor/test_multi_monitor.c:126-136 | the first output whose half-open box contains the point, none exactly when no box does |
| `Placement.CornerIsOn` | tests/unit/compositor/test_multi_monitor.c:126-136 | with disjoint non-empty boxes a window at an output's corner is on that output |
| `WindowPlacement.PlacementIsSticky` | src/compositor/src/xdg.c:292-396 | entering a state fills the named output, or the one the node is on, or the first; over any run in which the window is not dragged it stays there, and every later entry that names no output fills the same box |
| `WindowPlacement.StatesAreLast` | src/compositor/src/xdg.c:302-396 | over any run the window is told to be maximised or fullscreen as the last request of that kind with an effect said, and after one that left a state it chooses its own size |
| `WindowPlacement.PlaceStep` | src/compositor/src/xdg.c:302-396 | one request sets its own state alone, leaving gives up the size and moves nothing, and without an output to choose entering changes nothing |
| `WindowPlacement.OutputElsewhere` | src/compositor/src/xdg.c:361-384 | going fullscreen on an output that is not in the layout takes the empty box |
| `Fields.ScanValue` | src/compositor/src/keybinds.c:295-307 | the escape-skipping loop returns the bytes up to the first unescaped quote, nothing for an unterminated string, and stays inside the object |
| `Fields.ValueIff` | src/compositor/src/keybinds.c:295-300 | a value ends at the first quote with an even run of backslashes before it, and only there |
| `Fields.ValueGrammar` | src/compositor/src/keybinds.c:295-300 | a value is a text of plain characters and of pairs of a backslash and any character, up to a quote |
| `Fields.BehindIff` | src/compositor/src/keybinds.c:287-293 | what has to follow a key is any number of spaces, tabs, line feeds and carriage returns, a colon, and for a string such blanks again and a quote |
| `Fields.BehindKey` | src/compositor/src/keybinds.c:287-293 | the checks behind a key accept exactly that shape, and skipping what they read loses no later occurrence |
| `Fields.ExtractStringField` | src/compositor/src/keybinds.c:273-310 | the loop returns `Fields.Field`, none for a key of 62 characters or more |
| `Fields.FieldExact` | src/compositor/src/keybinds.c:280-307 | that is the string at the leftmost visited occurrence of the key with that shape behind it, visited meaning not overlapped by a visited one; none if it is unterminated or there is no such occurrence |
| `Modifiers.TokenFacts` | src/compositor/src/keybinds.c:194-208 | the four names give their bits, in any case, and nothing else gives one |
| `Modifiers.TokenByLetters` | src/compositor/src/keybinds.c:194-208 | the same letter by letter, each small or capital |
| `Modifiers.BitsIff` | src/compositor/src/keybinds.c:235 | a bit is set exactly when some token has it |
| `Modifiers.ArrayIff` | src/compositor/src/keybinds.c:219-221 | the array begins behind the first `[` |
| `Modifiers.ParseTokens` | src/compositor/src/keybinds.c:223-238 | the bits are those of the quoted strings before the first unquoted `]`; the cursor leaves the text exactly when the array is unclosed and the text ends, unquoted, in whitespace or a comma |
| `ModifierTokens.ClosedIff` | src/compositor/src/keybinds.c:223-238 | the array is closed exactly when a `]` stands behind an even number of quotes |
| `ModifierTokens.TokenAt` | src/compositor/src/keybinds.c:223-238 | every string that begins before the first such `]` is a token: the `k`th is what stands between quotes `2k` and `2k + 1`, or up to the end of the text without the latter |
| `ModifierTokens.TokenCount` | src/compositor/src/keybinds.c:223-238 | there are no other tokens |
| `ModifierTokens.RunawayIff` | src/compositor/src/keybinds.c:223-227 | the cursor leaves the text exactly when no `]` stands behind an even number of quotes, the quotes are even in number and the text ends in whitespace or a comma |
| `Modifiers.CommaAtEndRunsAway` | src/compositor/src/keybinds.c:225-227 | an input on which it does |
| `Modifiers.ParseModifiersArray` | src/compositor/src/keybinds.c:215-239 | the same from before the first `[`; no bits without one |
| `Modifiers.ModifiersFieldExact` | src/compositor/src/keybinds.c:321-331 | the value is what stands behind the colon at the leftmost visited occurrence of the modifiers key that blanks and a colon follow; none without one |
| `Modifiers.ExtractModifiersField` | src/compositor/src/keybinds.c:316-334 | the bits of the array behind that value, parsed in the whole text; no bits without a value |
| `Modifiers.ClosedArrayIsLocal` | src/compositor/src/keybinds.c:215-239 | if the array is closed inside the object the parser stays there and the bits depend on the object alone |
| `Keybinds.FindObjectEnd` | src/compositor/src/keybinds.c:409-418 | an object ends where its braces first balance, or with the text |
| `Keybinds.Lookup` | src/compositor/src/keybinds.c:127-133 | the binding found matches, no earlier one does, and none is found exactly when the combination is not bound |
| `Keybinds.Registry.RegisterBinding` | src/compositor/src/keybinds.c:162-186 | with memory for the structure and its command a new structure enters the list at the tail and holds the binding; otherwise it fails and the list is as it was |
| `Keybinds.Registry.HandleKey` | src/compositor/src/keybinds.c:120-136 | a key is consumed exactly when its combination is bound, and runs the earliest such binding |
| `Keybinds.Registry.Destroy` | src/compositor/src/keybinds.c:140-158 | every binding is unlinked and freed exactly once and the list is empty |
| `Keybinds.ActionIff` | src/compositor/src/keybinds.c:245-264 | which text names which action; every other text names none |
| `Keybinds.ParsedIff` | src/compositor/src/keybinds.c:420-468 | an object yields a binding exactly when its modifiers stay in the text, its key is a known name, its action one of the six and memory suffices; the binding is made of those and of a command that can be copied |
| `Keybinds.BindingsArrayIff` | src/compositor/src/keybinds.c:378-393 | the array begins behind the first `[` behind the first bindings key |
| `Keybinds.UnparsedFiles` | src/compositor/src/keybinds.c:344-393 | a missing file is no error; an unreadable, empty or oversized one, or one without an array, is, and adds nothing |
| `Keybinds.NulEndsText` | src/compositor/src/keybinds.c:376 | what stands behind a NUL in the file does not count |
| `Keybinds.ReadObject` | src/compositor/src/keybinds.c:420-454 | the binding of an object, or which error: a field that is missing or cannot be copied, an unknown key or action, or an array that leaves the text; a command that cannot be copied reads as missing |
| `Keybinds.Registry.LoadObject` | src/compositor/src/keybinds.c:409-468 | the object's binding is appended, or none if it is malformed or there is no memory for it |
| `Keybinds.Registry.LoadArray` | src/compositor/src/keybinds.c:397-471 | the bindings of the objects are appended in order until the end or the first error, unless the parser leaves the text |
| `Keybinds.Registry.LoadConfig` | src/compositor/src/keybinds.c:338-477 | status and added bindings for a missing, unreadable, empty, oversized, malformed or good file on which the parser stays in the text, memory failing at any object included |
| `Keybinds.Registry.Init` | src/compositor/src/keybinds.c:481-530 | the five defaults, then what such a file adds; an empty registry and failure without memory for a default |
| `KeybindsLoading.ObjectsCoverText` | src/compositor/src/keybinds.c:400-418 | the objects are disjoint, in order and separated by whitespace and commas alone; their braces balance at their end and not before, except that those of the last may stay open to the end of the text; and no object is left behind them |
| `KeybindsLoading.LoadingExact` | src/compositor/src/keybinds.c:400-471 | for any text, exactly the bindings of the objects before the first that yields none are added, and that one, or the end of the array, decides the status |
| `KeybindsLoading.OverrunIff` | src/compositor/src/keybinds.c:223-238 | loading leaves the text exactly when the modifiers value of some object runs away in the rest of the text and every earlier object yields a binding |
| `KeybindsLoading.OverrunFileIff` | src/compositor/src/keybinds.c:338-477 | the same for a whole file |
| `KeybindsLoading.LoadingIsPrefix` | src/compositor/src/keybinds.c:400-471 | with arrays closed inside their objects each object counts for itself, and loading fails exactly for a malformed one, for lack of memory or for a missing end |
| `KeybindsLoading.LoadingFile` | src/compositor/src/keybinds.c:338-477 | the same for a whole file |
| `KeybindsLoading.DispatchIsStable` | src/compositor/src/keybinds.c:127-133 | a combination that was bound runs the same binding whatever is loaded |
| `KeybindsLoading.ConfiguredBindingWorksIff` | src/compositor/src/keybinds.c:127-184 | a configured binding takes effect exactly when nothing before it binds its combination |
| `KeybindsLoading.DefaultsSurvive` | src/compositor/src/keybinds.c:488-525 | after initialisation with any file on which the parser stays in the text the defaults still run |
| `DefaultKeys.DefaultKeysWork` | src/compositor/src/keybinds.c:488-525 | after any such file Ctrl+Alt+T, Super, Super+L, Alt+Tab and Super+Q run their five actions |
| `DefaultKeys.SuperLLocks` | src/compositor/src/keybinds.c:84-87 | after any such file a press of Super+L in an unlocked session locks the screen exactly when the lock buffer can be made |
| `KeybindsOverride.EntryWorksIff` | src/compositor/src/keybinds.c:489-525 | an entry of a printed file takes effect exactly when no default and no earlier entry binds its combination |
| `KeybindsOverride.OverrideIsIgnored` | src/compositor/src/keybinds.c:489-525 | a file that rebinds Super+L is loaded with success and Super+L still locks the screen |
| `KeybindsOverride.BrokenFileOverruns` | src/compositor/src/keybinds.c:223-227 | a file that breaks off behind the first comma of a modifiers array makes the parser leave the text |
| `KeybindsRoundTrip.ModifiersToJsonArray` | tests/unit/compositor/test_keybinds.c:339-349 | the `first` flag yields the quoted names with commas between them |
| `KeybindsRoundTrip.WriteObject` | tests/unit/compositor/test_keybinds.c:407-414 | the array routine's text and the fields make the object that the round trip is about |
| `KeybindsRoundTrip.WriteKeybindsJson` | tests/unit/compositor/test_keybinds.c:382-422 | the loop writes the file that the round trip is about |
| `KeybindsRoundTrip.FieldsRead` | src/compositor/src/keybinds.c:423-425 | the three string fields of a printed object are read back, whatever key name and command say |
| `KeybindsRoundTrip.ModifiersRead` | src/compositor/src/keybinds.c:421 | the modifiers of a printed object are read back from an array closed inside it |
| `KeybindsRoundTrip.ActionRead` | src/compositor/src/keybinds.c:245-264 | the action table inverts the action names |
| `KeybindsRoundTrip.RoundTrip` | tests/unit/compositor/test_keybinds.c:363-425 | with memory, loading a printed file within the size limit succeeds and adds exactly the printed bindings in order |
| `Lock.HandleKeySound` | src/compositor/src/lock.c:309-363 | every key keeps: the line is at most 255 printable characters, an error only on an empty line, locked with and only with a buffer |
| `Lock.LineIsKeys` | src/compositor/src/lock.c:317-358 | the line is the text of the keys pressed while locked since the last Enter, and each Enter asks about the text of the keys before it |
| `Lock.UnlockNeedsAcceptedEnter` | src/compositor/src/lock.c:328-330 | a key event unlocks only by an Enter whose current line is accepted |
| `Lock.LeftoverKeysIgnored` | src/compositor/src/lock.c:313-315 | keysyms behind the one that unlocked change nothing |
| `Lock.TypedWordIsAsked` | src/compositor/src/lock.c:328-355 | typing a printable word of up to 255 characters and Enter asks about exactly that word |
| `Lock.BackspaceUndoesIff` | src/compositor/src/lock.c:317-358 | BackSpace undoes a printable key exactly on a line that was not full |
| `Lock.EditRules` | src/compositor/src/lock.c:317-358 | Escape wipes out all before it; BackSpace on an empty line, a printable key on a full one and every other key leave no trace |
| `Lock.EditCancels` | src/compositor/src/lock.c:317-355 | a printable key and BackSpace behind it leave no trace unless the line was full |
| `Lock.EscapeStartsOver` | src/compositor/src/lock.c:341-348 | whatever was typed before Escape, a word behind it and Enter asks about exactly that word |
| `Lock.ErrorIff` | src/compositor/src/lock.c:317-358 | the error is shown by a rejected Enter and stays until a printable key or Escape |
| `Lock.NoErrorWithoutEnter` | src/compositor/src/lock.c:309-363 | without Enter no error appears |
| `KeyRouting.ClientsSeeExactly` | src/compositor/src/input.c:84-113 | over any run clients see exactly the releases, and presses without a bound keysym, that arrived unlocked |
| `KeyRouting.OneDestination` | src/compositor/src/input.c:84-113 | an event is forwarded, or runs the earliest binding of its first bound keysym, or goes to the lock; an action other than locking leaves the lock alone |
| `KeyRouting.LocksIff` | src/compositor/src/keybinds.c:84-87 | an unlocked session is locked by an event exactly when that is the idle timer, the lock signal or a press whose binding, the earliest of its first bound keysym, is to lock, and the lock buffer can be made; any other event leaves the lock alone |
| `KeyRouting.LeftoverKeysymsIgnored` | src/compositor/src/input.c:84-106 | an event that locks or unlocks midway is not forwarded and its other keysyms change nothing |
| `KeyRouting.AlwaysSound` | src/compositor/src/lock.c:402-465 | in every run locked means one buffer more created than destroyed, unlocked as many, creation failures included |
| `KeyRouting.LinesAreTyped` | src/compositor/src/lock.c:309-363 | in every run the line is the text of the keys pressed since the screen was locked or Enter was pressed last, and authentication was asked about exactly such texts, one for each Enter, in order |
| `KeyRouting.UnlockOnlyByPassword` | src/compositor/src/lock.c:328-336 | in every run the only way from locked to unlocked is an Enter with an accepted line, the text of those keys |
| `KeyRouting.UnguardedIff` | src/compositor/src/lock.c:367-372 | in every run with a timer the screen is unlocked with the timer run out exactly when the timer ran out at some event and the screen was not locked then nor since |
| `KeyRouting.IdleTimerGuards` | src/compositor/src/lock.c:367-372 | with a timer and no failed activation the timer is counting or the screen is locked |
| `LockScreen.CStringIs` | src/compositor/src/lock.c:329 | the C string in a buffer with a NUL at the end of the line is the line |
| `LockScreen.Screen.Activate` | src/compositor/src/lock.c:402-465 | locking clears the line and makes a buffer; when that fails the screen stays unlocked without one |
| `LockScreen.Screen.Deactivate` | src/compositor/src/lock.c:270-301 | unlocking destroys the buffer, clears the password and rearms the timer |
| `LockScreen.Screen.Submit` | src/compositor/src/lock.c:328-338 | authentication gets exactly the edited line |
| `LockScreen.Screen.EditKey` | src/compositor/src/lock.c:317-358 | the in-place edits of the array are the line editor's, and every byte behind the line stays NUL |
| `LockScreen.Screen.HandleKey` | src/compositor/src/lock.c:309-363 | a key takes the machine's step and is consumed exactly while locked |
| `LockScreen.Screen.IdleTimeout` | src/compositor/src/lock.c:367-372 | the timer runs out once and locks |
| `LockScreen.Keyboard.TryBindings` | src/compositor/src/input.c:97-106 | the first bound keysym decides and only its binding runs |
| `LockScreen.Keyboard.HandleKeyboardKey` | src/compositor/src/input.c:68-114 | a key event takes the routing step |
| `Serial.FirstMatch` | tools/zen-test/src/serial/tail.rs:73-84 | the first pattern of the list that occurs |
| `Serial.WaitForPattern` | tools/zen-test/src/serial/tail.rs:27-88 | the loop, whose slice at the last offset is in range, is the incremental poller; its result comes from the first poll with new text in which a pattern occurs: the first success pattern of the list that does, and only without one the first error pattern |
| `Serial.NothingIsMissed` | tools/zen-test/src/serial/tail.rs:51-84 | on an append-only log without empty patterns no text read before the deciding one contains any pattern, and the deadline passes exactly when none ever does |
| `Serial.IncrementalIsNaiveIff` | tools/zen-test/src/serial/tail.rs:51-84 | it gives the naive poller's result at the same poll on every append-only log exactly when no pattern is empty |
| `Serial.ScanSerialLog` | tools/zen-test/src/serial/scan.rs:18-58 | signal, line count and error list of a log, empty for an unreadable one |
| `Serial.LineAt` | tools/zen-test/src/serial/scan.rs:37-50 | the line behind as many line feeds as its number is listed under it, without the carriage return in front of its line feed |
| `Serial.LineCount` | tools/zen-test/src/serial/scan.rs:37-58 | there are as many lines as line feeds, and one more if text follows the last of them |
| `Serial.HitsExact` | tools/zen-test/src/serial/scan.rs:41-50 | the hits are exactly the matching pairs of line and pattern, each once, in line then registry order |
| `Serial.ReportAt` | tools/zen-test/src/serial/scan.rs:43-48 | the error list reports the hits one for one with line numbers from 1 |
| `Serial.LinesAgree` | tools/zen-test/src/serial/scan.rs:37-65 | line-wise search finds what whole-text search finds |
| `Serial.LinesAgreeIff` | tools/zen-test/src/serial/scan.rs:37-65 | they agree on every log exactly for patterns that are not empty, have no line feed and do not end in a carriage return |
| `Serial.NoErrorsIffAbsent` | tools/zen-test/src/serial/scan.rs:61-71 | no hits exactly when every registered pattern is absent from the text |
| `Serial.RegistryIsLinewise` | tools/zen-test/src/serial/patterns.rs:12-49 | every registered pattern is of that kind |
| `Wallpaper.CoversTightly` | src/compositor/src/wallpaper.c:255-261 | the scale covers the output on both axes, exactly on one, no smaller factor does, and the crop offsets are not negative |
| `Wallpaper.ShowsTheImage` | src/compositor/src/wallpaper.c:312-326 | the point that translate-then-scale puts at an output point lies in the image, centre to centre |
| `Gates.CountsAddUp` | tools/zen-test/src/gate/runner.rs:62-91 | passed and failed count the passing and the failing assertions and add up to all of them; the status is "passed" exactly for a completed gate without a failure and tells completion with one, timeout and error apart |
| `Gates.SummaryAddsUp` | tools/zen-test/src/gate/report.rs:33-43 | each column counts the gates of its status, and they add up to the total |
| `Gates.ToTap` | tools/zen-test/src/gate/report.rs:6-31 | the plan announces as many tests as there are test lines, which are numbered from 1 and report the assertions one for one in order; each is followed by the three detail lines of its assertion, if it has a detail, and by nothing else |

## Left out

- Toplevels.Compositor.DestroyAll: ends the run; the grab is not reset there by the source either, so nothing is claimed afterwards.
- KeybindsRoundTrip.WriteKeybindsJson: also prints commands and the action `custom`, named as in `action_name`, which the printer of the unit tests does not write.
- Serial.WaitForPattern: texts are sequences of characters, so that a slice falls on a character boundary is not modelled; the debug echo of new lines is left out.
- Logging, drawing, scene stacking and the visibility flag of scene nodes, titles and application ids: they influence nothing that is modelled.
- Integer overflow of positions and sizes, and rounding of doubles.
- Running the actions of keybindings other than locking: they start processes or send requests to clients.
- The logind signal is the event `LockSignal`; the session-lock protocol listener answers the client and changes no state.
- Hit-testing and the walk up the scene graph from the node that was hit: the toplevel found is a parameter.
- Shutdown with live clients, device hotplug except the presence of a keyboard, cursor images, touch.
- `parse_wallpaper_path_from_theme`: the loops of `extract_string_field` once more, without the search for a later occurrence.
- `xwayland.c` is not called from `main.c`; `layer.c`, D-Bus handlers, shell, daemons, installer and session hold no algorithm.
- Booting and driving the virtual machine, the guest agent, screenshots and the order in which gate files are run.
