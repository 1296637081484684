/** `handle_keyboard_key`: every key event goes to the lock, to a keybinding or to the clients. */
module KeyRouting {
  import opened Prelude
  import opened Modifiers
  import opened Keybinds
  import opened Lock

  datatype KeyEvent = KeyEvent(code: nat, syms: seq<nat>, pressed: bool, mods: Mods)

  datatype Event = Key(key: KeyEvent) | IdleTimer | LockSignal

  /** The lock, the key events the seat was told about, and the bindings run, oldest first. */
  datatype Session = Session(lock: LockState, forwarded: seq<KeyEvent>, ran: seq<Binding>)

  /** The binding of the first keysym that has one. */
  function Dispatch(bs: seq<Binding>, mods: Mods, syms: seq<nat>): (r: Option<Binding>)
    ensures r.None? <==> forall s <- syms :: !Bound(bs, mods, s)
    ensures r.Some? ==> r.value in bs && r.value.modifiers == mods && r.value.keysym in syms
  {
    if syms == [] then None
    else
      match Lookup(bs, mods, syms[0])
      case Some(i) => assert Bound(bs, mods, syms[0]) && syms[0] in syms; Some(bs[i])
      case None =>
        assert !Bound(bs, mods, syms[0]) && syms == [syms[0]] + syms[1..];
        Dispatch(bs, mods, syms[1..])
  }

  /** What an action does to the lock. */
  function RunAction(s: LockState, b: Binding, env: Env): LockState {
    if b.action.LockScreen? then Activate(s, env) else s
  }

  function KeyStep(se: Session, bs: seq<Binding>, ev: KeyEvent, env: Env): Session {
    if se.lock.locked then se.(lock := HandleKeys(se.lock, ev.syms, ev.pressed, env))
    else
      match if ev.pressed then Dispatch(bs, ev.mods, ev.syms) else None
      case Some(b) => se.(ran := se.ran + [b], lock := RunAction(se.lock, b, env))
      case None => se.(forwarded := se.forwarded + [ev])
  }

  function Step(se: Session, bs: seq<Binding>, e: Event, env: Env): Session {
    match e
    case Key(ev) => KeyStep(se, bs, ev, env)
    case IdleTimer => se.(lock := IdleTimeout(se.lock, env))
    case LockSignal => se.(lock := Activate(se.lock, env))
  }

  /** From `zen_lock_init` on. */
  function Run(timer: bool, bs: seq<Binding>, es: seq<Event>, env: Env): Session {
    if es == [] then Session(Start(timer), [], [])
    else Step(Run(timer, bs, es[..|es| - 1], env), bs, es[|es| - 1], env)
  }

  // ---------------------------------------------------------------------------------------
  // Which keys clients see
  // ---------------------------------------------------------------------------------------

  /** Clients get a release, or a press none of whose keysyms is bound, that arrives unlocked. */
  ghost predicate ForClients(bs: seq<Binding>, locked: bool, ev: KeyEvent) {
    !locked && (ev.pressed ==> forall s <- ev.syms :: !Bound(bs, ev.mods, s))
  }

  ghost function ClientKeys(timer: bool, bs: seq<Binding>, es: seq<Event>, env: Env): seq<KeyEvent> {
    if es == [] then []
    else
      var e, locked := es[|es| - 1], Run(timer, bs, es[..|es| - 1], env).lock.locked;
      ClientKeys(timer, bs, es[..|es| - 1], env) +
      if e.Key? && ForClients(bs, locked, e.key) then [e.key] else []
  }

  /** Over any run the clients see exactly those keys, in order. */
  lemma {:induction false} ClientsSeeExactly(timer: bool, bs: seq<Binding>, es: seq<Event>, env: Env)
    ensures Run(timer, bs, es, env).forwarded == ClientKeys(timer, bs, es, env)
  {
    if es != [] {
      ClientsSeeExactly(timer, bs, es[..|es| - 1], env);
    }
  }

  /** `b` is the earliest binding of the first keysym of the event that has one. */
  ghost predicate Chosen(bs: seq<Binding>, ev: KeyEvent, b: Binding) {
    exists i, j ::
      && 0 <= i < |ev.syms| && 0 <= j < |bs| && bs[j] == b
      && b.modifiers == ev.mods && b.keysym == ev.syms[i]
      && (forall h :: 0 <= h < i ==> !Bound(bs, ev.mods, ev.syms[h]))
      && forall h :: 0 <= h < j ==> !(bs[h].modifiers == ev.mods && bs[h].keysym == ev.syms[i])
  }

  lemma {:induction false} DispatchFirst(bs: seq<Binding>, mods: Mods, syms: seq<nat>) returns (i: nat)
    requires Dispatch(bs, mods, syms).Some?
    ensures i < |syms| && Lookup(bs, mods, syms[i]).Some?
    ensures Dispatch(bs, mods, syms).value == bs[Lookup(bs, mods, syms[i]).value]
    ensures forall h :: 0 <= h < i ==> !Bound(bs, mods, syms[h])
  {
    if Lookup(bs, mods, syms[0]).Some? {
      i := 0;
    } else {
      i := DispatchFirst(bs, mods, syms[1..]);
      i := i + 1;
    }
  }

  lemma ChosenUnique(bs: seq<Binding>, ev: KeyEvent, b: Binding, c: Binding)
    requires Chosen(bs, ev, b) && Chosen(bs, ev, c)
    ensures b == c
  {
  }

  lemma ChosenIsBound(bs: seq<Binding>, ev: KeyEvent, b: Binding)
    requires Chosen(bs, ev, b)
    ensures exists s <- ev.syms :: Bound(bs, ev.mods, s)
  {
    var i, j :| && 0 <= i < |ev.syms| && 0 <= j < |bs| && bs[j] == b
                && b.modifiers == ev.mods && b.keysym == ev.syms[i];
    assert ev.syms[i] in ev.syms && Bound(bs, ev.mods, ev.syms[i]);
  }

  lemma DispatchIsChosen(bs: seq<Binding>, ev: KeyEvent, b: Binding)
    ensures Dispatch(bs, ev.mods, ev.syms) == Some(b) <==> Chosen(bs, ev, b)
  {
    if Dispatch(bs, ev.mods, ev.syms).Some? {
      var i := DispatchFirst(bs, ev.mods, ev.syms);
      var j := Lookup(bs, ev.mods, ev.syms[i]).value;
      var c := bs[j];
      forall h | 0 <= h < j ensures !(bs[h].modifiers == ev.mods && bs[h].keysym == ev.syms[i]) {
        assert bs[..j][h] == bs[h];
      }
      assert Chosen(bs, ev, c);
      if Chosen(bs, ev, b) {
        ChosenUnique(bs, ev, b, c);
      }
    } else if Chosen(bs, ev, b) {
      ChosenIsBound(bs, ev, b);
    }
  }

  /** A key event is forwarded, or runs one binding, or goes to the lock: never two of these.  A
      press that is bound reaches no client and runs the binding chosen for it, and an action other
      than locking leaves the lock alone. */
  lemma OneDestination(se: Session, bs: seq<Binding>, ev: KeyEvent, env: Env)
    ensures var se' := KeyStep(se, bs, ev, env);
            || (se'.forwarded == se.forwarded + [ev] && se'.ran == se.ran && se'.lock == se.lock
                && ForClients(bs, se.lock.locked, ev))
            || (se'.forwarded == se.forwarded && !se.lock.locked && ev.pressed
                && exists b :: Chosen(bs, ev, b) && se'.ran == se.ran + [b]
                               && (b.action != LockScreen ==> se'.lock == se.lock))
            || (se'.forwarded == se.forwarded && se'.ran == se.ran && se.lock.locked)
  {
    if !se.lock.locked && ev.pressed && Dispatch(bs, ev.mods, ev.syms).Some? {
      var b := Dispatch(bs, ev.mods, ev.syms).value;
      DispatchIsChosen(bs, ev, b);
    }
  }

  lemma {:induction false} DispatchPrefix(bs: seq<Binding>, mods: Mods, syms: seq<nat>, more: seq<nat>)
    requires Dispatch(bs, mods, syms).Some?
    ensures Dispatch(bs, mods, syms + more) == Dispatch(bs, mods, syms)
  {
    assert (syms + more)[0] == syms[0] && (syms + more)[1..] == syms[1..] + more;
    if Lookup(bs, mods, syms[0]).None? {
      DispatchPrefix(bs, mods, syms[1..], more);
    }
  }

  /** An event of several keysyms that changes the lock midway has no further effect: the keysyms
      behind the one that locked or unlocked are ignored, and the event is not forwarded. */
  lemma LeftoverKeysymsIgnored(se: Session, bs: seq<Binding>, ev: KeyEvent, k: nat, env: Env)
    requires k <= |ev.syms|
    requires KeyStep(se, bs, ev.(syms := ev.syms[..k]), env).lock.locked != se.lock.locked
    ensures KeyStep(se, bs, ev, env) == KeyStep(se, bs, ev.(syms := ev.syms[..k]), env)
    ensures KeyStep(se, bs, ev, env).forwarded == se.forwarded
  {
    assert ev.syms == ev.syms[..k] + ev.syms[k..];
    if se.lock.locked {
      LeftoverKeysIgnored(se.lock, ev.syms, k, ev.pressed, env);
    } else {
      DispatchPrefix(bs, ev.mods, ev.syms[..k], ev.syms[k..]);
    }
  }

  // ---------------------------------------------------------------------------------------
  // The life of the lock
  // ---------------------------------------------------------------------------------------

  /** What asks for the lock: the idle timer, the signal, or a press whose binding is to lock. */
  ghost predicate AsksForLock(bs: seq<Binding>, e: Event) {
    match e
    case Key(ev) => ev.pressed && exists b :: Chosen(bs, ev, b) && b.action == LockScreen
    case IdleTimer => true
    case LockSignal => true
  }

  /** An unlocked session is locked by an event exactly when the event asks for it and the lock
      buffer can be made; an event that does not ask leaves the lock alone. */
  lemma LocksIff(se: Session, bs: seq<Binding>, e: Event, env: Env)
    requires !se.lock.locked
    ensures Step(se, bs, e, env).lock.locked <==> AsksForLock(bs, e) && env.creation(se.lock.attempts).Created?
    ensures !AsksForLock(bs, e) ==> Step(se, bs, e, env).lock == se.lock
  {
    if e.Key? {
      forall b ensures Dispatch(bs, e.key.mods, e.key.syms) == Some(b) <==> Chosen(bs, e.key, b) {
        DispatchIsChosen(bs, e.key, b);
      }
    }
  }

  lemma StepSound(se: Session, bs: seq<Binding>, e: Event, env: Env)
    requires Sound(se.lock)
    ensures Sound(Step(se, bs, e, env).lock)
  {
    ActivateSound(se.lock, env);
    ActivateSound(se.lock.(timer := Expired), env);
    if e.Key? {
      HandleKeysSound(se.lock, e.key.syms, e.key.pressed, env);
    }
  }

  /** In every run: locked exactly with a lock buffer, one buffer more created than destroyed while
      locked and as many otherwise, creation failures included. */
  lemma {:induction false} AlwaysSound(timer: bool, bs: seq<Binding>, es: seq<Event>, env: Env)
    ensures Sound(Run(timer, bs, es, env).lock)
  {
    if es != [] {
      AlwaysSound(timer, bs, es[..|es| - 1], env);
      StepSound(Run(timer, bs, es[..|es| - 1], env), bs, es[|es| - 1], env);
    }
  }

  /** The keys that count for the current line after one more event, `keys` being those before it.
      While the screen is unlocked there are none. */
  function KeysAfter(s: LockState, keys: seq<nat>, e: Event, env: Env): seq<nat> {
    if !s.locked then []
    else if e.Key? then KeysSince(s, keys, e.key.syms, e.key.pressed, env)
    else keys
  }

  function LinesOf(s: LockState, keys: seq<nat>, e: Event, env: Env): seq<string> {
    if s.locked && e.Key? then Submitted(s, keys, e.key.syms, e.key.pressed, env) else []
  }

  /** The keys pressed since the screen was locked or Enter was pressed last. */
  function Typed(timer: bool, bs: seq<Binding>, es: seq<Event>, env: Env): seq<nat> {
    if es == [] then []
    else
      var front := es[..|es| - 1];
      KeysAfter(Run(timer, bs, front, env).lock, Typed(timer, bs, front, env), es[|es| - 1], env)
  }

  /** The texts of the keys before each Enter of the run. */
  function AllSubmitted(timer: bool, bs: seq<Binding>, es: seq<Event>, env: Env): seq<string> {
    if es == [] then []
    else
      var front := es[..|es| - 1];
      AllSubmitted(timer, bs, front, env) +
      LinesOf(Run(timer, bs, front, env).lock, Typed(timer, bs, front, env), es[|es| - 1], env)
  }

  lemma EventLine(se: Session, keys: seq<nat>, bs: seq<Binding>, e: Event, env: Env)
    requires Sound(se.lock) && se.lock.line == EditAll(keys)
    ensures Step(se, bs, e, env).lock.line == EditAll(KeysAfter(se.lock, keys, e, env))
    ensures Step(se, bs, e, env).lock.asked == se.lock.asked + LinesOf(se.lock, keys, e, env)
  {
    if se.lock.locked && e.Key? {
      LineIsKeys(se.lock, keys, e.key.syms, e.key.pressed, env);
    } else {
      assert se.lock.asked + [] == se.lock.asked;
    }
  }

  /** In every run the line is what those keys make of an empty line, and authentication was asked
      about exactly those texts, in order. */
  lemma {:induction false} LinesAreTyped(timer: bool, bs: seq<Binding>, es: seq<Event>, env: Env)
    ensures Run(timer, bs, es, env).lock.line == EditAll(Typed(timer, bs, es, env))
    ensures Run(timer, bs, es, env).lock.asked == AllSubmitted(timer, bs, es, env)
  {
    if es != [] {
      var front := es[..|es| - 1];
      LinesAreTyped(timer, bs, front, env);
      AlwaysSound(timer, bs, front, env);
      EventLine(Run(timer, bs, front, env), Typed(timer, bs, front, env), bs, es[|es| - 1], env);
    }
  }

  /** The only step from locked to unlocked is a key event with an Enter whose line, the text of the
      keys pressed since the line was last reset, authentication accepts. */
  lemma UnlockOnlyByPassword(timer: bool, bs: seq<Binding>, es: seq<Event>, e: Event, env: Env) returns (i: nat)
    requires Run(timer, bs, es, env).lock.locked && !Step(Run(timer, bs, es, env), bs, e, env).lock.locked
    ensures e.Key? && e.key.pressed && i < |e.key.syms| && IsEnter(e.key.syms[i])
    ensures var s0 := Run(timer, bs, es, env).lock;
            var s := HandleKeys(s0, e.key.syms[..i], true, env);
            && s.locked && env.accepts(|s.asked|, s.line)
            && s.line == EditAll(KeysSince(s0, Typed(timer, bs, es, env), e.key.syms[..i], true, env))
  {
    var s0 := Run(timer, bs, es, env).lock;
    LinesAreTyped(timer, bs, es, env);
    i := UnlockNeedsAcceptedEnter(s0, e.key.syms, e.key.pressed, env);
    LineIsKeys(s0, Typed(timer, bs, es, env), e.key.syms[..i], true, env);
  }

  // ---------------------------------------------------------------------------------------
  // The idle timer
  // ---------------------------------------------------------------------------------------

  /** Keys leave the timer alone while the screen stays locked, and rearm it when they unlock. */
  lemma {:induction false} KeysTimer(s: LockState, syms: seq<nat>, pressed: bool, env: Env)
    requires s.locked
    ensures var s' := HandleKeys(s, syms, pressed, env);
            && s'.attempts == s.attempts && (s'.timer.NoTimer? <==> s.timer.NoTimer?)
            && (!s'.locked ==> s'.timer.NoTimer? || s'.timer.Armed?)
            && (s'.locked ==> s'.timer == s.timer)
  {
    if syms != [] {
      KeysTimer(s, syms[..|syms| - 1], pressed, env);
    }
  }

  ghost predicate UnlockedBehind(bs: seq<Binding>, es: seq<Event>, env: Env, i: nat, n: nat)
    requires n <= |es|
  {
    forall j :: i < j <= n ==> !Run(true, bs, es[..j], env).lock.locked
  }

  /** The timer ran out at the `i`th event, and the screen was not locked then nor since. */
  ghost predicate UnguardedSince(bs: seq<Binding>, es: seq<Event>, env: Env, i: nat) {
    i < |es| && es[i].IdleTimer? && UnlockedBehind(bs, es, env, i, |es|)
  }

  lemma UnlockedOneMore(bs: seq<Binding>, es: seq<Event>, e: Event, env: Env, i: nat)
    requires i <= |es|
    ensures UnlockedBehind(bs, es + [e], env, i, |es| + 1) <==>
            UnlockedBehind(bs, es, env, i, |es|) && !Run(true, bs, es + [e], env).lock.locked
  {
    var es' := es + [e];
    assert es'[..|es| + 1] == es';
    assert forall j :: 0 <= j <= |es| ==> es'[..j] == es[..j];
  }

  lemma StillUnguarded(bs: seq<Binding>, es: seq<Event>, e: Event, env: Env, i: nat)
    requires i < |es|
    ensures UnguardedSince(bs, es + [e], env, i) <==>
            UnguardedSince(bs, es, env, i) && !Run(true, bs, es + [e], env).lock.locked
  {
    UnlockedOneMore(bs, es, e, env, i);
  }

  lemma TimerStep(se: Session, bs: seq<Binding>, e: Event, env: Env)
    requires !se.lock.timer.NoTimer?
    ensures var s, s' := se.lock, Step(se, bs, e, env).lock;
            && !s'.timer.NoTimer? && s.attempts <= s'.attempts
            && (s'.timer.Expired? && !s'.locked <==>
                !s'.locked && (e.IdleTimer? || (s.timer.Expired? && !s.locked)))
  {
    if e.Key? && se.lock.locked {
      KeysTimer(se.lock, e.key.syms, e.key.pressed, env);
    }
  }

  /** If the timer could be created, a session is unguarded - the screen unlocked and the timer not
      counting - exactly when the timer has run out and the screen has not been locked since. */
  lemma {:induction false} UnguardedIff(bs: seq<Binding>, es: seq<Event>, env: Env)
    ensures var s := Run(true, bs, es, env).lock;
            && !s.timer.NoTimer?
            && (s.timer.Expired? && !s.locked <==> exists i: nat :: UnguardedSince(bs, es, env, i))
  {
    if es != [] {
      var n := |es| - 1;
      var front, e := es[..n], es[n];
      assert es == front + [e];
      UnguardedIff(bs, front, env);
      TimerStep(Run(true, bs, front, env), bs, e, env);
      forall i: nat | i < n
        ensures UnguardedSince(bs, es, env, i) <==>
                UnguardedSince(bs, front, env, i) && !Run(true, bs, es, env).lock.locked
      {
        StillUnguarded(bs, front, e, env, i);
      }
      UnlockedOneMore(bs, front, e, env, n);
      assert UnguardedSince(bs, es, env, n) <==> e.IdleTimer? && !Run(true, bs, es, env).lock.locked;
    }
  }

  /** Without a timer there never is one. */
  lemma {:induction false} NoTimerEver(bs: seq<Binding>, es: seq<Event>, env: Env)
    requires forall e <- es :: !e.IdleTimer?
    ensures Run(false, bs, es, env).lock.timer.NoTimer?
  {
    if es != [] {
      var front, e := es[..|es| - 1], es[|es| - 1];
      NoTimerEver(bs, front, env);
      var s := Run(false, bs, front, env).lock;
      if e.Key? && s.locked {
        KeysTimer(s, e.key.syms, e.key.pressed, env);
      }
    }
  }

  lemma {:induction false} AttemptsGrow(bs: seq<Binding>, es: seq<Event>, env: Env, i: nat)
    requires i <= |es|
    ensures Run(true, bs, es[..i], env).lock.attempts <= Run(true, bs, es, env).lock.attempts
    decreases |es| - i
  {
    assert es[..|es|] == es;
    if i < |es| {
      var front := es[..|es| - 1];
      assert front[..i] == es[..i];
      UnguardedIff(bs, front, env);
      TimerStep(Run(true, bs, front, env), bs, es[|es| - 1], env);
      AttemptsGrow(bs, front, env, i);
    }
  }

  /** So it is guarded as long as no activation fails: an idle session gets locked. */
  lemma IdleTimerGuards(bs: seq<Binding>, es: seq<Event>, env: Env)
    requires forall n :: 0 <= n < Run(true, bs, es, env).lock.attempts ==> env.creation(n).Created?
    ensures var s := Run(true, bs, es, env).lock; s.timer.Armed? || s.locked
  {
    UnguardedIff(bs, es, env);
    if i: nat :| UnguardedSince(bs, es, env, i) {
      assert es[..i + 1][..i] == es[..i];
      AttemptsGrow(bs, es, env, i + 1);
    }
  }
}
