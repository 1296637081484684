/** The five default key combinations, from the configuration file to what a key event does. */
module DefaultKeys {
  import opened Modifiers
  import opened Keybinds
  import opened KeybindsLoading
  import opened Lock
  import K = KeyRouting

  /** The combination runs that action. */
  predicate RunsAction(bs: seq<Binding>, mods: Mods, sym: Keysym, action: Action) {
    var r := Lookup(bs, mods, sym);
    r.Some? && bs[r.value].action == action
  }

  /** Whatever the file adds, Ctrl+Alt+T launches a terminal, Super alone toggles the launcher,
      Super+L locks, Alt+Tab switches windows and Super+Q closes one. */
  lemma DefaultKeysWork(file: File, host: Host)
    requires Load(file, host).status != Overran
    ensures var bs := DEFAULTS + Load(file, host).added;
            && RunsAction(bs, {Ctrl, Alt}, 0x74, LaunchTerminal) && RunsAction(bs, {}, 0xffeb, ToggleLauncher)
            && RunsAction(bs, {Logo}, 0x6c, LockScreen) && RunsAction(bs, {Alt}, 0xff09, SwitchWindow)
            && RunsAction(bs, {Logo}, 0x71, CloseWindow)
  {
    DefaultsSurvive(file, host, 0);
    DefaultsSurvive(file, host, 1);
    DefaultsSurvive(file, host, 2);
    DefaultsSurvive(file, host, 3);
    DefaultsSurvive(file, host, 4);
  }

  lemma FirstSymChosen(bs: seq<Binding>, ev: K.KeyEvent)
    requires ev.syms != [] && Lookup(bs, ev.mods, ev.syms[0]).Some?
    ensures K.Chosen(bs, ev, bs[Lookup(bs, ev.mods, ev.syms[0]).value])
  {
    K.DispatchIsChosen(bs, ev, bs[Lookup(bs, ev.mods, ev.syms[0]).value]);
  }

  /** Pressing Super+L in an unlocked session locks the screen, whatever the file says, as long as
      the lock buffer can be made. */
  lemma SuperLLocks(se: K.Session, file: File, host: Host, ev: K.KeyEvent, env: Env)
    requires !se.lock.locked && Load(file, host).status != Overran
    requires ev.pressed && ev.mods == {Logo} && ev.syms != [] && ev.syms[0] == 0x6c
    ensures K.Step(se, DEFAULTS + Load(file, host).added, K.Key(ev), env).lock.locked
            <==> env.creation(se.lock.attempts).Created?
  {
    var bs := DEFAULTS + Load(file, host).added;
    DefaultKeysWork(file, host);
    FirstSymChosen(bs, ev);
    K.LocksIff(se, bs, K.Key(ev), env);
  }
}
