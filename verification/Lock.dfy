/** The screen lock of `lock.c` as a machine over values. */
module Lock {
  /** `ZEN_LOCK_PASS_MAX`. */
  const PASS_MAX := 255

  const BACKSPACE := 0xff08
  const RETURN := 0xff0d
  const KP_ENTER := 0xff8d
  const ESCAPE := 0xff1b

  predicate IsEnter(sym: nat) { sym == RETURN || sym == KP_ENTER }

  predicate IsPrintable(sym: nat) { 0x20 <= sym <= 0x7e }

  predicate Printable(s: string) { forall i :: 0 <= i < |s| ==> ' ' <= s[i] <= '~' }

  /** The one-shot idle timer: not created, counting, or run out. */
  datatype Timer = NoTimer | Armed | Expired

  /** Creating the lock buffer: no memory for its structure, no surface, or all well. */
  datatype Creation = NoMemory | NoSurface | Created

  /** What the world answers: authentication to the nth question, buffer creation at the nth
      attempt. */
  datatype Env = Env(accepts: (nat, string) -> bool, creation: nat -> Creation)

  /** `line` is the password typed so far, `asked` the lines handed to authentication; `created`,
      `destroyed` and `attempts` count lock buffers and activations. */
  datatype LockState = LockState(
    locked: bool,
    line: string,
    showError: bool,
    buffer: bool,
    timer: Timer,
    created: nat,
    destroyed: nat,
    attempts: nat,
    asked: seq<string>)

  /** `zen_lock_init`; the timer may not be available. */
  function Start(timer: bool): LockState {
    LockState(false, "", false, false, if timer then Armed else NoTimer, 0, 0, 0, [])
  }

  /** `zen_lock_activate`. */
  function Activate(s: LockState, env: Env): LockState {
    if s.locked then s
    else
      var s1 := s.(line := "", showError := false, buffer := false, attempts := s.attempts + 1);
      match env.creation(s.attempts)
      case NoMemory => s1
      case NoSurface => s1.(created := s.created + 1, destroyed := s.destroyed + 1)
      case Created => s1.(locked := true, buffer := true, created := s.created + 1)
  }

  /** `zen_lock_deactivate`. */
  function Deactivate(s: LockState): LockState {
    if !s.locked then s
    else s.(locked := false, line := "", showError := false, buffer := false,
            destroyed := if s.buffer then s.destroyed + 1 else s.destroyed,
            timer := if s.timer.NoTimer? then NoTimer else Armed)
  }

  /** The line editor: what one key other than Enter makes of the line. */
  function Edit(line: string, sym: nat): string {
    if sym == BACKSPACE then (if line == "" then "" else line[..|line| - 1])
    else if sym == ESCAPE then ""
    else if IsPrintable(sym) && |line| < PASS_MAX then line + [sym as char]
    else line
  }

  /** `zen_lock_handle_key`. */
  function HandleKey(s: LockState, sym: nat, pressed: bool, env: Env): LockState {
    if !s.locked || !pressed then s
    else if IsEnter(sym) then
      var s1 := s.(asked := s.asked + [s.line]);
      if env.accepts(|s.asked|, s.line) then Deactivate(s1)
      else s1.(showError := true, line := "")
    else
      var line := Edit(s.line, sym);
      s.(line := line, showError := s.showError && line == s.line && sym != ESCAPE)
  }

  /** `idle_timeout_cb`: the timer has fired and is not rearmed here. */
  function IdleTimeout(s: LockState, env: Env): LockState {
    Activate(s.(timer := Expired), env)
  }

  /** The keysyms of one key event, in turn. */
  function HandleKeys(s: LockState, syms: seq<nat>, pressed: bool, env: Env): LockState {
    if syms == [] then s
    else HandleKey(HandleKeys(s, syms[..|syms| - 1], pressed, env), syms[|syms| - 1], pressed, env)
  }

  // ---------------------------------------------------------------------------------------
  // What every step keeps
  // ---------------------------------------------------------------------------------------

  /** Locked goes with a lock buffer and vice versa, and buffers do not leak; the line is at
      most 255 printable characters; an error is shown on an empty line only. */
  ghost predicate Sound(s: LockState) {
    && (s.locked <==> s.buffer)
    && s.created == s.destroyed + (if s.locked then 1 else 0)
    && |s.line| <= PASS_MAX && Printable(s.line)
    && (s.showError ==> s.line == "")
    && (!s.locked ==> s.line == "" && !s.showError)
  }

  lemma ActivateSound(s: LockState, env: Env)
    requires Sound(s)
    ensures Sound(Activate(s, env))
  {
  }

  lemma EditPrintable(line: string, sym: nat)
    requires |line| <= PASS_MAX && Printable(line)
    ensures |Edit(line, sym)| <= PASS_MAX && Printable(Edit(line, sym))
  {
  }

  lemma HandleKeySound(s: LockState, sym: nat, pressed: bool, env: Env)
    requires Sound(s)
    ensures Sound(HandleKey(s, sym, pressed, env))
  {
    if s.locked && pressed && !IsEnter(sym) {
      EditPrintable(s.line, sym);
    }
  }

  lemma {:induction false} HandleKeysSound(s: LockState, syms: seq<nat>, pressed: bool, env: Env)
    requires Sound(s)
    ensures Sound(HandleKeys(s, syms, pressed, env))
  {
    if syms != [] {
      HandleKeysSound(s, syms[..|syms| - 1], pressed, env);
      HandleKeySound(HandleKeys(s, syms[..|syms| - 1], pressed, env), syms[|syms| - 1], pressed, env);
    }
  }

  /** A key event unlocks only by an Enter among its keysyms, pressed while the screen was still
      locked, whose line authentication accepted; that line is the last one asked about. */
  lemma {:induction false} UnlockNeedsAcceptedEnter(s: LockState, syms: seq<nat>, pressed: bool, env: Env)
    returns (i: nat)
    requires s.locked && !HandleKeys(s, syms, pressed, env).locked
    ensures pressed && i < |syms| && IsEnter(syms[i])
    ensures var before := HandleKeys(s, syms[..i], pressed, env);
            && before.locked && env.accepts(|before.asked|, before.line)
            && HandleKeys(s, syms, pressed, env) == Deactivate(before.(asked := before.asked + [before.line]))
  {
    var front, last := syms[..|syms| - 1], syms[|syms| - 1];
    var before := HandleKeys(s, front, pressed, env);
    if before.locked {
      i := |syms| - 1;
    } else {
      i := UnlockNeedsAcceptedEnter(s, front, pressed, env);
      assert syms[..i] == front[..i];
    }
  }

  /** Once one keysym of an event has unlocked the screen, the others change nothing. */
  lemma {:induction false} LeftoverKeysIgnored(s: LockState, syms: seq<nat>, k: nat, pressed: bool, env: Env)
    requires k <= |syms| && !HandleKeys(s, syms[..k], pressed, env).locked
    ensures HandleKeys(s, syms, pressed, env) == HandleKeys(s, syms[..k], pressed, env)
    decreases |syms| - k
  {
    if k < |syms| {
      assert syms[..k + 1][..k] == syms[..k];
      LeftoverKeysIgnored(s, syms, k + 1, pressed, env);
    } else {
      assert syms[..k] == syms;
    }
  }

  // ---------------------------------------------------------------------------------------
  // The line and the keys
  // ---------------------------------------------------------------------------------------

  /** The text that keys make of an empty line. */
  function EditAll(syms: seq<nat>): string {
    if syms == [] then "" else Edit(EditAll(syms[..|syms| - 1]), syms[|syms| - 1])
  }

  /** The keys that count for the current line, after one more: those pressed while locked since the
      last Enter.  The line is not looked at. */
  function NextKeys(locked: bool, keys: seq<nat>, sym: nat, pressed: bool): seq<nat> {
    if !pressed || !locked then keys else if IsEnter(sym) then [] else keys + [sym]
  }

  /** What it asks about, if anything: the text of the keys so far. */
  function NextLine(locked: bool, keys: seq<nat>, sym: nat, pressed: bool): seq<string> {
    if pressed && locked && IsEnter(sym) then [EditAll(keys)] else []
  }

  /** The keys that count after `syms`, `before` being those before. */
  function KeysSince(s: LockState, before: seq<nat>, syms: seq<nat>, pressed: bool, env: Env): seq<nat> {
    if syms == [] then before
    else
      var front, last := syms[..|syms| - 1], syms[|syms| - 1];
      NextKeys(HandleKeys(s, front, pressed, env).locked, KeysSince(s, before, front, pressed, env), last, pressed)
  }

  /** What each Enter among `syms` asks about. */
  function Submitted(s: LockState, before: seq<nat>, syms: seq<nat>, pressed: bool, env: Env): seq<string> {
    if syms == [] then []
    else
      var front, last := syms[..|syms| - 1], syms[|syms| - 1];
      Submitted(s, before, front, pressed, env) +
      NextLine(HandleKeys(s, front, pressed, env).locked, KeysSince(s, before, front, pressed, env), last, pressed)
  }

  lemma EditOneMore(keys: seq<nat>, sym: nat)
    ensures EditAll(keys + [sym]) == Edit(EditAll(keys), sym)
  {
    assert (keys + [sym])[..|keys|] == keys;
  }

  lemma LineStep(s: LockState, keys: seq<nat>, sym: nat, pressed: bool, env: Env)
    requires s.line == EditAll(keys)
    ensures HandleKey(s, sym, pressed, env).line == EditAll(NextKeys(s.locked, keys, sym, pressed))
    ensures HandleKey(s, sym, pressed, env).asked == s.asked + NextLine(s.locked, keys, sym, pressed)
  {
    if s.locked && pressed && IsEnter(sym) {
      assert EditAll([]) == "";
    } else {
      EditOneMore(keys, sym);
      assert s.asked + [] == s.asked;
    }
  }

  /** The line is what these keys make of an empty one, and authentication was asked about those
      lines. */
  lemma {:induction false} LineIsKeys(s: LockState, before: seq<nat>, syms: seq<nat>, pressed: bool, env: Env)
    requires s.line == EditAll(before)
    ensures HandleKeys(s, syms, pressed, env).line == EditAll(KeysSince(s, before, syms, pressed, env))
    ensures HandleKeys(s, syms, pressed, env).asked == s.asked + Submitted(s, before, syms, pressed, env)
  {
    if syms != [] {
      var front, last := syms[..|syms| - 1], syms[|syms| - 1];
      LineIsKeys(s, before, front, pressed, env);
      LineStep(HandleKeys(s, front, pressed, env), KeysSince(s, before, front, pressed, env), last, pressed, env);
    }
  }

  // ---------------------------------------------------------------------------------------
  // The line editor
  // ---------------------------------------------------------------------------------------

  function Keys(word: string): seq<nat> {
    if word == "" then [] else Keys(word[..|word| - 1]) + [word[|word| - 1] as nat]
  }

  lemma FrontPrintable(word: string)
    requires Printable(word) && word != ""
    ensures var front, c := word[..|word| - 1], word[|word| - 1];
            word == front + [c] && Printable(front) && IsPrintable(c as nat)
  {
    var front := word[..|word| - 1];
    assert forall i :: 0 <= i < |front| ==> front[i] == word[i];
  }

  lemma {:induction false} TypingHandled(s: LockState, word: string, env: Env)
    requires Sound(s) && s.locked && s.line == "" && |word| <= PASS_MAX && Printable(word)
    ensures var s' := HandleKeys(s, Keys(word), true, env);
            s'.locked && s'.line == word && s'.asked == s.asked
  {
    if word != "" {
      var front, c := word[..|word| - 1], word[|word| - 1];
      FrontPrintable(word);
      TypingHandled(s, front, env);
      assert Keys(word)[..|Keys(word)| - 1] == Keys(front);
    }
  }

  /** Typing any printable word of up to 255 characters on an empty line and pressing Enter hands
      exactly that word to authentication. */
  lemma TypedWordIsAsked(s: LockState, word: string, enter: nat, env: Env)
    requires Sound(s) && s.locked && s.line == "" && |word| <= PASS_MAX && Printable(word)
    requires IsEnter(enter)
    ensures var s' := HandleKey(HandleKeys(s, Keys(word), true, env), enter, true, env);
            && s'.asked == s.asked + [word]
            && s'.locked == !env.accepts(|s.asked|, word)
  {
    TypingHandled(s, word, env);
  }

  /** Going on typing. */
  function EditOn(line: string, keys: seq<nat>): string {
    if keys == [] then line else Edit(EditOn(line, keys[..|keys| - 1]), keys[|keys| - 1])
  }

  lemma {:induction false} EditSplit(keys: seq<nat>, more: seq<nat>)
    ensures EditAll(keys + more) == EditOn(EditAll(keys), more)
  {
    if more == [] {
      assert keys + more == keys;
    } else {
      var front, last := more[..|more| - 1], more[|more| - 1];
      EditSplit(keys, front);
      EditOneMore(keys + front, last);
      assert keys + more == (keys + front) + [last];
    }
  }

  lemma EditFrom(a: seq<nat>, b: seq<nat>, more: seq<nat>)
    requires EditAll(a) == EditAll(b)
    ensures EditAll(a + more) == EditAll(b + more)
  {
    EditSplit(a, more);
    EditSplit(b, more);
  }

  /** Which keys leave no trace: Escape wipes out all before it; BackSpace does nothing on an empty
      line; a printable key does nothing on a full line, and so does every key that is neither
      printable nor one of those two. */
  lemma EditRules(keys: seq<nat>, sym: nat, more: seq<nat>)
    ensures sym == 0xff1b ==> EditAll((keys + [sym]) + more) == EditAll(more)
    ensures sym == 0xff08 && EditAll(keys) == "" ==> EditAll((keys + [sym]) + more) == EditAll(keys + more)
    ensures 0x20 <= sym <= 0x7e && |EditAll(keys)| >= 255 ==> EditAll((keys + [sym]) + more) == EditAll(keys + more)
    ensures !(0x20 <= sym <= 0x7e) && sym != 0xff08 && sym != 0xff1b ==>
              EditAll((keys + [sym]) + more) == EditAll(keys + more)
  {
    EditOneMore(keys, sym);
    if sym == ESCAPE {
      EditFrom(keys + [sym], [], more);
      assert [] + more == more;
    } else if EditAll(keys + [sym]) == EditAll(keys) {
      EditFrom(keys + [sym], keys, more);
    }
  }

  /** A printable key and BackSpace behind it leave no trace unless the line was full. */
  lemma EditCancels(keys: seq<nat>, sym: nat, more: seq<nat>)
    requires 0x20 <= sym <= 0x7e && |EditAll(keys)| < 255
    ensures EditAll(((keys + [sym]) + [0xff08]) + more) == EditAll(keys + more)
  {
    EditOneMore(keys, sym);
    EditOneMore(keys + [sym], BACKSPACE);
    assert (EditAll(keys) + [sym as char])[..|EditAll(keys)|] == EditAll(keys);
    EditFrom((keys + [sym]) + [BACKSPACE], keys, more);
  }

  /** A word types itself. */
  lemma {:induction false} EditTypes(word: string)
    requires |word| <= 255 && Printable(word)
    ensures EditAll(Keys(word)) == word
  {
    if word != "" {
      var front, c := word[..|word| - 1], word[|word| - 1];
      FrontPrintable(word);
      EditTypes(front);
      EditOneMore(Keys(front), c as nat);
    }
  }

  lemma {:induction false} NoEnterKeys(s: LockState, before: seq<nat>, syms: seq<nat>, env: Env)
    requires s.locked && forall k <- syms :: !IsEnter(k)
    ensures HandleKeys(s, syms, true, env).locked && HandleKeys(s, syms, true, env).asked == s.asked
    ensures KeysSince(s, before, syms, true, env) == before + syms
  {
    if syms == [] {
      assert before + syms == before;
    } else {
      var front, last := syms[..|syms| - 1], syms[|syms| - 1];
      NoEnterKeys(s, before, front, env);
      assert before + syms == (before + front) + [last];
    }
  }

  lemma {:induction false} WordKeys(word: string)
    requires Printable(word)
    ensures forall k <- Keys(word) :: !IsEnter(k)
  {
    if word != "" {
      var front := word[..|word| - 1];
      FrontPrintable(word);
      WordKeys(front);
    }
  }

  /** Escape starts over: whatever keys other than Enter were pressed before it, typing a word
      behind it and Enter asks about exactly that word. */
  lemma EscapeStartsOver(s: LockState, keys: seq<nat>, word: string, enter: nat, env: Env)
    requires s.locked && s.line == "" && (forall k <- keys :: !IsEnter(k))
    requires |word| <= 255 && Printable(word) && (enter == 0xff0d || enter == 0xff8d)
    ensures var s' := HandleKey(HandleKeys(s, (keys + [0xff1b]) + Keys(word), true, env), enter, true, env);
            s'.asked == s.asked + [word] && s'.locked == !env.accepts(|s.asked|, word)
  {
    var all := (keys + [ESCAPE]) + Keys(word);
    WordKeys(word);
    NoEnterKeys(s, [], all, env);
    LineIsKeys(s, [], all, true, env);
    assert [] + all == all;
    EditRules(keys, ESCAPE, Keys(word));
    EditTypes(word);
  }

  /** The error is shown by a rejected Enter, which empties the line, and stays until a printable
      key or Escape is pressed. */
  lemma {:induction false} ErrorIff(s: LockState, enter: nat, keys: seq<nat>, env: Env)
    requires s.locked && IsEnter(enter) && !env.accepts(|s.asked|, s.line) && forall k <- keys :: !IsEnter(k)
    ensures var s' := HandleKeys(HandleKey(s, enter, true, env), keys, true, env);
            && s'.locked && (s'.showError <==> forall k <- keys :: !IsPrintable(k) && k != ESCAPE)
            && (s'.showError ==> s'.line == "")
  {
    if keys != [] {
      var front, last := keys[..|keys| - 1], keys[|keys| - 1];
      ErrorIff(s, enter, front, env);
      assert forall k <- keys :: k in front || k == last;
      assert last in keys && forall k <- front :: k in keys;
    }
  }

  /** Without Enter no error appears. */
  lemma {:induction false} NoErrorWithoutEnter(s: LockState, keys: seq<nat>, env: Env)
    requires s.locked && !s.showError && forall k <- keys :: !IsEnter(k)
    ensures HandleKeys(s, keys, true, env).locked && !HandleKeys(s, keys, true, env).showError
  {
    if keys != [] {
      NoErrorWithoutEnter(s, keys[..|keys| - 1], env);
    }
  }

  /** BackSpace takes back a printable key exactly when the line was not full: on a full line the
      key is dropped and BackSpace removes the character before it. */
  lemma BackspaceUndoesIff(line: string, sym: nat)
    requires |line| <= PASS_MAX && IsPrintable(sym)
    ensures Edit(Edit(line, sym), BACKSPACE) == line <==> |line| < PASS_MAX
  {
    if |line| < PASS_MAX {
      assert (line + [sym as char])[..|line|] == line;
    }
  }
}
