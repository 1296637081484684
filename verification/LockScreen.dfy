/** The statics of `lock.c`: a fixed password array edited in place, with the handlers that
    change it, and the keyboard handler of `input.c`. */
module LockScreen {
  import opened Scanning
  import opened Modifiers
  import opened Keybinds
  import opened Lock
  import K = KeyRouting

  /** The C string that starts at the beginning of the buffer. */
  function CString(bytes: string): string { bytes[..Until(bytes, '\0')] }

  /** Bytes that are no NULs, then NULs: the string is the bytes before them. */
  lemma {:induction false} CStringIs(bytes: string, n: nat)
    requires n < |bytes| && bytes[n] == '\0' && forall i :: 0 <= i < n ==> bytes[i] != '\0'
    ensures CString(bytes) == bytes[..n]
  {
    if n > 0 {
      CStringIs(bytes[1..], n - 1);
    }
  }

  class Screen {
    /** `compositor->locked`. */
    var locked: bool
    /** `s_lock.lock_buffer` is not null. */
    var buffer: bool
    var showError: bool
    /** `s_password` and `s_password_len`. */
    const password: array<char>
    var passwordLen: int
    /** `s_idle_timer`. */
    var timer: Timer
    ghost var created: nat
    ghost var destroyed: nat
    /** How often the environment was consulted, and with what. */
    var attempts: nat
    var asked: seq<string>

    /** The line in front, NULs behind it up to the last byte. */
    ghost predicate Valid()
      reads this, password
    {
      && password.Length == PASS_MAX + 1 && 0 <= passwordLen <= PASS_MAX
      && (forall i :: passwordLen <= i < password.Length ==> password[i] == '\0')
      && Printable(password[..passwordLen])
    }

    ghost function View(): LockState
      reads this, password
      requires 0 <= passwordLen <= password.Length
    {
      LockState(locked, password[..passwordLen], showError, buffer, timer, created, destroyed, attempts, asked)
    }

    /** `zen_lock_init`. */
    constructor (timerAvailable: bool)
      ensures Valid() && fresh(password) && View() == Start(timerAvailable)
    {
      locked, buffer, showError, passwordLen := false, false, false, 0;
      timer := if timerAvailable then Armed else NoTimer;
      password := new char[PASS_MAX + 1](i => '\0');
      created, destroyed, attempts, asked := 0, 0, 0, [];
    }

    /** `memset` of the password and `s_password_len = 0`. */
    method Wipe()
      requires password.Length == PASS_MAX + 1
      modifies this`passwordLen, password
      ensures Valid() && passwordLen == 0
    {
      forall i | 0 <= i < password.Length {
        password[i] := '\0';
      }
      passwordLen := 0;
    }

    /** `zen_lock_activate`. */
    method Activate(env: Env)
      requires Valid()
      modifies this, password
      ensures Valid() && View() == Lock.Activate(old(View()), env)
    {
      if locked {
        return;
      }
      locked := true;
      buffer, showError := false, false;
      Wipe();
      var creation := env.creation(attempts);
      attempts := attempts + 1;
      if creation.NoMemory? {
        locked := false;
        return;
      }
      created := created + 1;
      if creation.NoSurface? {
        destroyed := destroyed + 1;
        locked := false;
        return;
      }
      buffer := true;
    }

    /** `zen_lock_deactivate`. */
    method Deactivate()
      requires Valid()
      modifies this, password
      ensures Valid() && View() == Lock.Deactivate(old(View()))
    {
      if !locked {
        return;
      }
      if buffer {
        destroyed := destroyed + 1;
      }
      locked := false;
      buffer, showError := false, false;
      Wipe();
      if !timer.NoTimer? {
        timer := Armed;
      }
    }

    /** BackSpace: shorten the line and clear the byte it ended with. */
    method Backspace()
      requires Valid() && passwordLen > 0
      modifies this`passwordLen, password
      ensures Valid() && passwordLen == old(passwordLen) - 1
      ensures password[..passwordLen] == old(password[..passwordLen])[..passwordLen]
    {
      passwordLen := passwordLen - 1;
      password[passwordLen] := '\0';
      assert password[..passwordLen] == old(password[..passwordLen])[..passwordLen];
    }

    /** A printable key: store the byte and the NUL behind it. */
    method Append(c: char)
      requires Valid() && passwordLen < PASS_MAX && IsPrintable(c as nat)
      modifies this`passwordLen, password
      ensures Valid() && passwordLen == old(passwordLen) + 1
      ensures password[..passwordLen] == old(password[..passwordLen]) + [c]
    {
      password[passwordLen] := c;
      passwordLen := passwordLen + 1;
      password[passwordLen] := '\0';
      assert password[..passwordLen] == old(password[..passwordLen]) + [c];
    }

    /** Enter: ask about the C string in the buffer, then unlock or start over. */
    method Submit(env: Env)
      requires Valid() && locked
      modifies this, password
      ensures Valid()
      ensures var s := old(View()).(asked := old(asked) + [old(View()).line]);
              View() == if env.accepts(|old(asked)|, old(View()).line) then Lock.Deactivate(s)
                        else s.(showError := true, line := "")
    {
      ghost var line := View().line;
      CStringIs(password[..], passwordLen);
      assert password[..][..passwordLen] == line;
      var text := CString(password[..]);
      var answer := env.accepts(|asked|, text);
      asked := asked + [text];
      if answer {
        Deactivate();
      } else {
        showError := true;
        Wipe();
      }
    }

    /** The keys that edit the line. */
    method EditKey(sym: nat)
      requires Valid() && locked && !IsEnter(sym)
      modifies this, password
      ensures Valid()
      ensures View() == old(View()).(
                line := Edit(old(View()).line, sym),
                showError := old(showError) && Edit(old(View()).line, sym) == old(View()).line && sym != ESCAPE)
    {
      if sym == BACKSPACE {
        if passwordLen > 0 {
          Backspace();
          showError := false;
        }
      } else if sym == ESCAPE {
        Wipe();
        showError := false;
      } else if IsPrintable(sym) {
        if passwordLen < PASS_MAX {
          Append(sym as char);
          showError := false;
        }
      }
    }

    /** `zen_lock_handle_key`. */
    method HandleKey(sym: nat, pressed: bool, env: Env) returns (consumed: bool)
      requires Valid()
      modifies this, password
      ensures Valid() && View() == Lock.HandleKey(old(View()), sym, pressed, env)
      ensures consumed == old(locked)
    {
      if !locked || !pressed {
        return locked;
      }
      if IsEnter(sym) {
        Submit(env);
      } else {
        EditKey(sym);
      }
      consumed := true;
    }

    /** `idle_timeout_cb`, called by the event loop when the timer has run out. */
    method IdleTimeout(env: Env)
      requires Valid() && timer.Armed?
      modifies this, password
      ensures Valid() && View() == Lock.IdleTimeout(old(View()), env)
    {
      timer := Expired;
      Activate(env);
    }
  }

  class Keyboard {
    const screen: Screen
    const registry: Registry
    /** What the seat was told and which bindings ran. */
    ghost var forwarded: seq<K.KeyEvent>
    ghost var ran: seq<Binding>

    ghost predicate Valid()
      reads this, screen, screen.password, registry, registry.head, registry.list
    {
      screen.Valid() && registry.Valid()
    }

    ghost function View(): K.Session
      reads this, screen, screen.password
      requires screen.Valid()
    {
      K.Session(screen.View(), forwarded, ran)
    }

    constructor (screen: Screen, registry: Registry)
      requires screen.Valid() && registry.Valid()
      ensures Valid() && this.screen == screen && this.registry == registry
      ensures View() == K.Session(screen.View(), [], [])
    {
      this.screen, this.registry := screen, registry;
      forwarded, ran := [], [];
    }

    /** `execute_action`, as far as the lock is concerned. */
    method ExecuteAction(b: Binding, env: Env)
      requires Valid()
      modifies this`ran, screen, screen.password
      ensures Valid()
      ensures View() == old(View()).(ran := old(ran) + [b], lock := K.RunAction(old(View()).lock, b, env))
    {
      if b.action.LockScreen? {
        screen.Activate(env);
      }
      ran := ran + [b];
    }

    /** Locked: every keysym of the event goes to the lock. */
    method FeedLock(syms: seq<nat>, pressed: bool, env: Env)
      requires Valid()
      modifies screen, screen.password
      ensures Valid() && View() == old(View()).(lock := HandleKeys(old(View()).lock, syms, pressed, env))
    {
      for i := 0 to |syms|
        invariant Valid() && screen.View() == HandleKeys(old(screen.View()), syms[..i], pressed, env)
      {
        var consumed := screen.HandleKey(syms[i], pressed, env);
        assert syms[..i + 1][..i] == syms[..i];
      }
      assert syms[..|syms|] == syms;
    }

    /** Unlocked press: the keysyms are tried in turn until one is bound. */
    method TryBindings(mods: Mods, syms: seq<nat>, env: Env) returns (consumed: bool)
      requires Valid()
      modifies this`ran, screen, screen.password
      ensures Valid()
      ensures match K.Dispatch(registry.bindings, mods, syms)
              case Some(b) =>
                consumed && View() == old(View()).(ran := old(ran) + [b], lock := K.RunAction(old(View()).lock, b, env))
              case None => !consumed && View() == old(View())
    {
      for i := 0 to |syms|
        invariant Valid() && View() == old(View())
        invariant K.Dispatch(registry.bindings, mods, syms) == K.Dispatch(registry.bindings, mods, syms[i..])
      {
        assert syms[i..][1..] == syms[i + 1..];
        var hit, binding := registry.HandleKey(mods, syms[i]);
        if hit {
          ExecuteAction(binding.value, env);
          return true;
        }
      }
      assert syms[|syms|..] == [];
      consumed := false;
    }

    /** `handle_keyboard_key`. */
    method HandleKeyboardKey(ev: K.KeyEvent, env: Env)
      requires Valid()
      modifies this, screen, screen.password
      ensures Valid() && View() == K.KeyStep(old(View()), registry.bindings, ev, env)
    {
      if screen.locked {
        FeedLock(ev.syms, ev.pressed, env);
        return;
      }
      var consumed := false;
      if ev.pressed {
        consumed := TryBindings(ev.mods, ev.syms, env);
      }
      if !consumed {
        forwarded := forwarded + [ev];
      }
    }
  }
}
