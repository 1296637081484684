/** The keybinding registry of `keybinds.c` and the loader of its configuration file. */
module Keybinds {
  import opened Prelude
  import opened Scanning
  import opened Fields
  import opened Modifiers
  import opened WlList

  /** An xkb keysym; 0 is `XKB_KEY_NoSymbol`. */
  type Keysym = nat

  datatype Action = LaunchTerminal | ToggleLauncher | LockScreen | SwitchWindow | CloseWindow | Custom

  datatype Binding = Binding(modifiers: Mods, keysym: Keysym, action: Action, command: Option<string>)

  /** `action_name`. */
  function ActionName(a: Action): string {
    match a
    case LaunchTerminal => "launch_terminal"
    case ToggleLauncher => "toggle_launcher"
    case LockScreen => "lock_screen"
    case SwitchWindow => "switch_window"
    case CloseWindow => "close_window"
    case Custom => "custom"
  }

  /** `parse_action_string`; no result stands for `ZEN_ACTION_COUNT`. */
  function ParseAction(s: string): Option<Action> {
    if s == "launch_terminal" then Some(LaunchTerminal)
    else if s == "toggle_launcher" then Some(ToggleLauncher)
    else if s == "lock_screen" then Some(LockScreen)
    else if s == "switch_window" then Some(SwitchWindow)
    else if s == "close_window" then Some(CloseWindow)
    else if s == "custom" then Some(Custom)
    else None
  }

  lemma Distinguished()
    ensures Distinct(["launch_terminal", "toggle_launcher", "lock_screen", "switch_window", "close_window", "custom"])
  {
    assert "launch_terminal"[1] != "lock_screen"[1];
    assert "close_window"[1] != "custom"[1];
    assert |"launch_terminal"| == |"toggle_launcher"| ==> "launch_terminal"[0] != "toggle_launcher"[0];
  }

  /** The texts that name an action, and no others. */
  lemma ActionIff(s: string)
    ensures ParseAction(s) == Some(LaunchTerminal) <==> s == "launch_terminal"
    ensures ParseAction(s) == Some(ToggleLauncher) <==> s == "toggle_launcher"
    ensures ParseAction(s) == Some(LockScreen) <==> s == "lock_screen"
    ensures ParseAction(s) == Some(SwitchWindow) <==> s == "switch_window"
    ensures ParseAction(s) == Some(CloseWindow) <==> s == "close_window"
    ensures ParseAction(s) == Some(Custom) <==> s == "custom"
    ensures ParseAction(s) == None <==>
            s !in ["launch_terminal", "toggle_launcher", "lock_screen", "switch_window", "close_window", "custom"]
  {
    Distinguished();
  }

  // ---------------------------------------------------------------------------------------
  // Cutting the text into objects
  // ---------------------------------------------------------------------------------------

  /** Opening minus closing braces.  Braces inside strings count too. */
  function Depth(s: string): int {
    multiset(s)['{'] as int - multiset(s)['}'] as int
  }

  lemma DepthSnoc(s: string, c: char)
    ensures Depth(s + [c]) == Depth(s) + (if c == '{' then 1 else if c == '}' then -1 else 0)
  {
  }

  /** The object that starts at `s[0]` is `s[..n]`: it ends where the braces first balance, or with
      the text. */
  ghost predicate IsObjectEnd(s: string, n: nat) {
    && 0 < n <= |s|
    && (forall m :: 0 < m < n ==> Depth(s[..m]) > 0)
    && (n < |s| ==> Depth(s[..n]) == 0)
  }

  lemma ObjectEndUnique(s: string, m: nat, n: nat)
    requires IsObjectEnd(s, m) && IsObjectEnd(s, n)
    ensures m == n
  {
  }

  function EndFrom(s: string, q: nat, depth: int): (n: nat)
    requires 0 < q <= |s| && depth == Depth(s[..q]) > 0
    requires forall m :: 0 < m < q ==> Depth(s[..m]) > 0
    ensures IsObjectEnd(s, n)
    decreases |s| - q
  {
    if q == |s| then q
    else
      var d := if s[q] == '{' then depth + 1 else if s[q] == '}' then depth - 1 else depth;
      assert s[..q + 1] == s[..q] + [s[q]];
      DepthSnoc(s[..q], s[q]);
      if d == 0 then q + 1 else EndFrom(s, q + 1, d)
  }

  function ObjectEnd(s: string): (n: nat)
    requires s != [] && s[0] == '{'
    ensures 0 < n <= |s|
  {
    assert s[..1] == [s[0]];
    EndFrom(s, 1, 1)
  }

  lemma ObjectEndFacts(s: string)
    requires s != [] && s[0] == '{'
    ensures IsObjectEnd(s, ObjectEnd(s))
  {
    assert s[..1] == [s[0]];
  }

  /** The loop that looks for the matching brace. */
  method FindObjectEnd(s: string) returns (q: nat)
    requires s != [] && s[0] == '{'
    ensures q == ObjectEnd(s)
  {
    var depth := 0;
    q := 0;
    while q < |s|
      invariant 0 <= q <= |s| && depth == Depth(s[..q])
      invariant forall m :: 0 < m <= q ==> Depth(s[..m]) > 0
    {
      assert s[..q + 1] == s[..q] + [s[q]];
      DepthSnoc(s[..q], s[q]);
      if s[q] == '{' {
        depth := depth + 1;
      } else if s[q] == '}' {
        depth := depth - 1;
        if depth == 0 {
          q := q + 1;
          break;
        }
      }
      q := q + 1;
    }
    ObjectEndFacts(s);
    ObjectEndUnique(s, q, ObjectEnd(s));
  }

  // ---------------------------------------------------------------------------------------
  // One object, the list of objects, the file
  // ---------------------------------------------------------------------------------------

  /** Whether memory is to be had for the copies of the three string fields of an object, for the
      binding, and for the binding's copy of the command. */
  datatype Memory = Memory(key: bool, action: bool, command: bool, binding: bool, copy: bool)

  /** What the loader depends on besides the file: `xkb_keysym_from_name` (0 for unknown names),
      and memory for the default bindings and for the objects of the file, by their numbers. */
  datatype Host = Host(keysymOf: string -> Keysym, defaults: nat -> bool, memory: nat -> Memory)

  datatype Parsed = Parsed(binding: Binding) | Malformed | NoMemory | Overrun

  /** A field for whose copy there is no memory reads as missing. */
  function Copied(field: Option<string>, memory: bool): Option<string> { if memory then field else None }

  /** The string fields of an object.  An unknown key name or action is an error, as is a missing
      one; a missing command is not. */
  function BindingOf(obj: string, mods: Mods, host: Host, k: nat): Parsed {
    var m := host.memory(k);
    match (Copied(Field(obj, "key"), m.key), Copied(Field(obj, "action"), m.action))
    case (Some(key), Some(action)) =>
      if host.keysymOf(key) == 0 || ParseAction(action).None? then Malformed
      else
        var command := Copied(Field(obj, "command"), m.command);
        Parsed(Binding(mods, host.keysymOf(key), ParseAction(action).value, command))
    case _ => Malformed
  }

  /** The fields of the `k`th object, `beyond` being the text that follows it. */
  function ReadFields(obj: string, beyond: string, host: Host, k: nat): Parsed {
    match ModifiersField(obj)
    case None => BindingOf(obj, {}, host, k)
    case Some(p) =>
      if RunawayArray(p + beyond) then Overrun else BindingOf(obj, ArrayBits(p + beyond), host, k)
  }

  /** `register_binding` succeeds: there is memory for the structure and its command, if any. */
  predicate Fits(b: Binding, binding: bool, copy: bool) { binding && (b.command.None? || copy) }

  /** What the `k`th object comes to. */
  function ParseObject(obj: string, beyond: string, host: Host, k: nat): Parsed {
    var r, m := ReadFields(obj, beyond, host, k), host.memory(k);
    if r.Parsed? && !Fits(r.binding, m.binding, m.copy) then NoMemory else r
  }

  /** The modifiers an object asks for, if its array does not leave the text. */
  ghost predicate HasModifiers(obj: string, beyond: string, mods: Mods) {
    match ModifiersField(obj)
    case None => mods == {}
    case Some(p) => !RunawayArray(p + beyond) && mods == ArrayBits(p + beyond)
  }

  /** The string field is there, and there is memory for its copy. */
  ghost predicate HasField(obj: string, key: string, memory: bool, value: string) {
    memory && Field(obj, key) == Some(value)
  }

  /** An object yields a binding exactly when its modifiers stay in the text, its key is a known
      name, its action one of the six, and memory suffices; the binding is made of those, and of
      the command, if there is one that can be copied. */
  lemma ParsedIff(obj: string, beyond: string, host: Host, k: nat, b: Binding)
    ensures ParseObject(obj, beyond, host, k) == Parsed(b) <==>
            var m := host.memory(k);
            && HasModifiers(obj, beyond, b.modifiers)
            && (exists key :: HasField(obj, "key", m.key, key) && host.keysymOf(key) == b.keysym != 0)
            && (exists action :: HasField(obj, "action", m.action, action) && ParseAction(action) == Some(b.action))
            && (match b.command
                case None => !m.command || Field(obj, "command") == None
                case Some(command) => HasField(obj, "command", m.command, command) && m.copy)
            && m.binding
  {
  }

  /** Success is the return value 0, failure -1.  `Overran`: the modifier parser left the text,
      and nothing can be said about what the program does then. */
  datatype Status = Success | Failure | Overran

  datatype Loaded = Loaded(status: Status, added: seq<Binding>)

  /** What loading amounts to when `done` has been registered and `rest` is still to come. */
  function After(done: seq<Binding>, rest: Loaded): Loaded {
    Loaded(rest.status, done + rest.added)
  }

  /** From just behind the `[` of the bindings array, or from where `k` objects have been loaded. */
  function LoadObjects(s: string, host: Host, k: nat): Loaded
    decreases |s|
  {
    var p := AfterGap(s);
    if p == [] || p[0] == ']' then Loaded(Success, [])
    else if p[0] != '{' then Loaded(Failure, [])
    else
      var n := ObjectEnd(p);
      match ParseObject(p[..n], p[n..], host, k)
      case Overrun => Loaded(Overran, [])
      case Parsed(b) => After([b], LoadObjects(p[n..], host, k + 1))
      case _ => Loaded(Failure, [])
  }

  lemma AfterAfter(done: seq<Binding>, more: seq<Binding>, rest: Loaded)
    ensures After(done, After(more, rest)) == After(done + more, rest)
  {
    assert done + (more + rest.added) == (done + more) + rest.added;
  }

  /** The text behind the first `[` after the bindings key. */
  function BindingsArray(text: string): Option<string> {
    match Find(text, Quoted("bindings"))
    case None => None
    case Some(i) => Array(text[i + 10..])
  }

  const MAX_SIZE := 65536

  /** The configuration file: it cannot be opened, or its bytes cannot be had for lack of memory or
      because of a reading error, or they can. */
  datatype File = Missing | Unreadable | Contents(bytes: string)

  /** What loading a file does; no file is not an error.  The buffer is used as a C string. */
  function Load(file: File, host: Host): Loaded {
    match file
    case Missing => Loaded(Success, [])
    case Unreadable => Loaded(Failure, [])
    case Contents(bytes) =>
      if |bytes| == 0 || |bytes| > MAX_SIZE then Loaded(Failure, [])
      else
        match BindingsArray(bytes[..Until(bytes, '\0')])
        case None => Loaded(Failure, [])
        case Some(s) => LoadObjects(s, host, 0)
  }

  /** The bindings array begins behind the first `[` behind the first bindings key. */
  lemma BindingsArrayIff(text: string, s: string)
    ensures BindingsArray(text) == Some(s) <==>
            exists i: nat, w ::
              && OccursAt(text, "\"bindings\"", i) && (forall j :: 0 <= j < i ==> !OccursAt(text, "\"bindings\"", j))
              && '[' !in w && text[i + 10..] == w + ("[" + s)
  {
    var key := "\"bindings\"";
    assert Quoted("bindings") == key && |key| == 10;
    FindFacts(text, key);
    if Find(text, key).Some? {
      ArrayIff(text[Find(text, key).value + 10..], s);
    }
  }

  /** Files that are not parsed at all: none is not an error; an unreadable, empty or oversized one
      is. */
  lemma UnparsedFiles(file: File, host: Host)
    ensures file.Missing? ==> Load(file, host) == Loaded(Success, [])
    ensures file.Unreadable? || (file.Contents? && (|file.bytes| == 0 || |file.bytes| > 65536)) ==>
              Load(file, host) == Loaded(Failure, [])
    ensures file.Contents? && BindingsArray(file.bytes[..Until(file.bytes, '\0')]) == None ==>
              Load(file, host) == Loaded(Failure, [])
  {
  }

  /** What stands behind a NUL does not count. */
  lemma NulEndsText(a: string, b: string, host: Host)
    requires '\0' !in a && a != "" && |a| + 1 + |b| <= 65536
    ensures Load(Contents(a + ("\0" + b)), host) == Load(Contents(a), host)
  {
    UntilAfter(a, '\0', b);
    assert (a + ("\0" + b))[..|a|] == a;
    NoneUntil(a, '\0');
    assert a[..|a|] == a;
  }

  // ---------------------------------------------------------------------------------------
  // Dispatch
  // ---------------------------------------------------------------------------------------

  predicate Bound(bs: seq<Binding>, mods: Mods, sym: Keysym) {
    exists i :: 0 <= i < |bs| && bs[i].modifiers == mods && bs[i].keysym == sym
  }

  function LookupFrom(bs: seq<Binding>, mods: Mods, sym: Keysym, from: nat): (r: Option<nat>)
    requires from <= |bs|
    ensures r.Some? ==> from <= r.value < |bs| && bs[r.value].modifiers == mods && bs[r.value].keysym == sym
    ensures r.Some? ==> forall i :: from <= i < r.value ==> !(bs[i].modifiers == mods && bs[i].keysym == sym)
    ensures r.None? ==> forall i :: from <= i < |bs| ==> !(bs[i].modifiers == mods && bs[i].keysym == sym)
    decreases |bs| - from
  {
    if from == |bs| then None
    else if bs[from].modifiers == mods && bs[from].keysym == sym then Some(from)
    else LookupFrom(bs, mods, sym, from + 1)
  }

  /** The binding a key combination runs: the earliest in the registry. */
  function Lookup(bs: seq<Binding>, mods: Mods, sym: Keysym): (r: Option<nat>)
    ensures r.Some? ==> r.value < |bs| && bs[r.value].modifiers == mods && bs[r.value].keysym == sym
    ensures r.Some? ==> !Bound(bs[..r.value], mods, sym)
    ensures r.None? ==> !Bound(bs, mods, sym)
  {
    LookupFrom(bs, mods, sym, 0)
  }

  lemma {:induction false} LookupFromIs(bs: seq<Binding>, mods: Mods, sym: Keysym, from: nat, i: nat)
    requires from <= i < |bs| && bs[i].modifiers == mods && bs[i].keysym == sym
    requires forall j :: from <= j < i ==> !(bs[j].modifiers == mods && bs[j].keysym == sym)
    ensures LookupFrom(bs, mods, sym, from) == Some(i)
    decreases i - from
  {
    if from < i {
      LookupFromIs(bs, mods, sym, from + 1, i);
    }
  }

  /** Extracting the fields of one object. */
  method ReadObject(obj: string, beyond: string, host: Host, k: nat) returns (outcome: Parsed)
    ensures outcome == ReadFields(obj, beyond, host, k)
  {
    var mods := ExtractModifiersField(obj, beyond);
    if mods.None? {
      return Overrun;
    }
    var m := host.memory(k);
    var key := ExtractStringField(obj, "key", m.key);
    var action := ExtractStringField(obj, "action", m.action);
    var command := ExtractStringField(obj, "command", m.command);
    if key.None? || action.None? {
      return Malformed;
    }
    var keysym := host.keysymOf(key.value);
    if keysym == 0 {
      return Malformed;
    }
    var a := ParseAction(action.value);
    if a.None? {
      return Malformed;
    }
    outcome := Parsed(Binding(mods.value, keysym, a.value, command));
  }

  lemma AppendFirst(before: seq<Binding>, bs: seq<Binding>)
    requires bs != []
    ensures before + bs == (before + [bs[0]]) + bs[1..]
  {
  }

  ghost predicate DefaultsFit(host: Host) { forall i :: 0 <= i < |DEFAULTS| ==> host.defaults(i) }

  /** Ctrl+Alt+T, Super alone, Super+L, Alt+Tab and Super+Q. */
  const DEFAULTS: seq<Binding> := [
    Binding({Ctrl, Alt}, 0x74, LaunchTerminal, None),
    Binding({}, 0xffeb, ToggleLauncher, None),
    Binding({Logo}, 0x6c, LockScreen, None),
    Binding({Alt}, 0xff09, SwitchWindow, None),
    Binding({Logo}, 0x71, CloseWindow, None)]

  /** `compositor->keybindings`: bindings on an intrusive list, oldest first. */
  class Registry {
    /** The list head; what it holds means nothing. */
    const head: Link<Binding>
    /** The structures on the list, in list order, and what they hold. */
    ghost var list: seq<Link<Binding>>
    ghost var bindings: seq<Binding>

    ghost predicate Valid()
      reads this, head, list
    {
      Ring([head] + list) && |bindings| == |list| && forall i :: 0 <= i < |list| ==> list[i].data == bindings[i]
    }

    constructor ()
      ensures Valid() && fresh(head) && bindings == [] && list == []
    {
      head := new Link(Binding({}, 0, Custom, None));
      list, bindings := [], [];
      new;
      assert [head] + list == [head];
    }

    /** `wl_list_insert(keybindings.prev, elm)`. */
    method Enlist(elm: Link<Binding>)
      requires Valid() && elm != head && elm !in list && !elm.freed
      modifies this, head, list, elm`prev, elm`next
      ensures Valid() && bindings == old(bindings) + [elm.data] && list == old(list) + [elm]
    {
      Neighbours(head, head, list);
      Append(head, elm, [head] + list);
      assert [head] + list + [elm] == [head] + (list + [elm]);
      list, bindings := list + [elm], bindings + [elm.data];
    }

    /** The list consists of structures that were on it and new ones. */
    twostate predicate Grown()
      reads this
    {
      forall i :: 0 <= i < |list| ==> list[i] in old(list) || fresh(list[i])
    }

    /** `register_binding`: append at the tail, if there is memory for the structure and for its copy
        of the command. */
    method RegisterBinding(b: Binding, binding: bool, copy: bool) returns (ok: bool)
      requires Valid()
      modifies this, head, list
      ensures Valid() && Grown() && ok == Fits(b, binding, copy)
      ensures bindings == if ok then old(bindings) + [b] else old(bindings)
    {
      if !binding {
        return false;
      }
      var elm := new Link(b);
      if b.command.Some? && !copy {
        elm.Free();
        return false;
      }
      Enlist(elm);
      ok := true;
    }

    /** `zen_keybinds_handle_key`: whether the key is consumed, and the binding it runs. */
    method HandleKey(mods: Mods, sym: Keysym) returns (consumed: bool, ran: Option<Binding>)
      requires Valid()
      ensures consumed <==> Bound(bindings, mods, sym)
      ensures ran == match Lookup(bindings, mods, sym) case Some(i) => Some(bindings[i]) case None => None
    {
      Iteration(head, list, 0);
      var iter := head.next;
      ghost var k: nat := 0;
      while iter != head
        invariant k <= |list| && iter == Nth(head, list, k)
        invariant LookupFrom(bindings, mods, sym, k) == Lookup(bindings, mods, sym)
        decreases |list| - k
      {
        Iteration(head, list, k);
        assert iter.data == bindings[k];
        if iter.data.modifiers == mods && iter.data.keysym == sym {
          return true, Some(iter.data);
        }
        iter := iter.next;
        k := k + 1;
      }
      Iteration(head, list, k);
      return false, None;
    }

    /** `zen_keybinds_destroy`: every binding is unlinked and freed exactly once. */
    method Destroy()
      requires Valid()
      modifies this, head, list
      ensures Valid() && bindings == [] && list == []
      ensures forall l <- old(list) :: l.freed
    {
      Drain(head, list);
      list, bindings := [], [];
      assert [head] + list == [head];
    }

    /** `wl_list_init`: what was on the list is dropped, not freed. */
    method Reset()
      requires Valid()
      modifies this, head
      ensures Valid() && bindings == [] && list == []
    {
      assert !([head] + list)[0].freed;
      head.prev := head;
      head.next := head;
      list, bindings := [], [];
      assert [head] + list == [head];
    }

    /** One object of the bindings array: cut it, extract its fields and register the binding. */
    method LoadObject(p: string, host: Host, k: nat) returns (outcome: Parsed, rest: string)
      requires Valid() && p != [] && p[0] == '{'
      modifies this, head, list
      ensures outcome == ParseObject(p[..ObjectEnd(p)], p[ObjectEnd(p)..], host, k) && rest == p[ObjectEnd(p)..]
      ensures !outcome.Overrun? ==>
                && Valid() && Grown()
                && bindings == if outcome.Parsed? then old(bindings) + [outcome.binding] else old(bindings)
    {
      var n := FindObjectEnd(p);
      rest := p[n..];
      outcome := ReadObject(p[..n], rest, host, k);
      if outcome.Parsed? {
        var ok := RegisterBinding(outcome.binding, host.memory(k).binding, host.memory(k).copy);
        if !ok {
          outcome := NoMemory;
        }
      }
    }

    /** One round of the loop over the array: skip whitespace and commas, then load an object unless the array
        ends here or is broken. */
    method LoadNext(p: string, host: Host, k: nat)
      returns (stop: Option<Status>, next: string, ghost added: seq<Binding>)
      requires Valid()
      modifies this, head, list
      ensures stop.Some? ==> LoadObjects(p, host, k) == Loaded(stop.value, []) && added == []
      ensures stop.None? ==>
                |next| < |p| && LoadObjects(p, host, k) == After(added, LoadObjects(next, host, k + 1))
      ensures stop != Some(Overran) ==> Valid() && bindings == old(bindings) + added && Grown()
    {
      var q := SkipGap(p);
      added := [];
      if q == [] || q[0] == ']' {
        return Some(Success), q, [];
      }
      if q[0] != '{' {
        return Some(Failure), q, [];
      }
      var outcome;
      outcome, next := LoadObject(q, host, k);
      match outcome
      case Overrun => stop := Some(Overran);
      case Parsed(b) => stop, added := None, [b];
      case _ => stop := Some(Failure);
    }

    /** The loop over the bindings array.  Nothing is said about the registry once the parser has
        left the text. */
    method LoadArray(s: string, host: Host) returns (status: Status)
      requires Valid()
      modifies this, head, list
      ensures status == LoadObjects(s, host, 0).status
      ensures status != Overran ==> Valid() && bindings == old(bindings) + LoadObjects(s, host, 0).added
    {
      var loaded := 0;
      var p := s;
      ghost var all := After(bindings, LoadObjects(s, host, 0));
      while p != []
        invariant Valid() && Grown() && After(bindings, LoadObjects(p, host, loaded)) == all
        decreases |p|
      {
        ghost var before := bindings;
        var stop, next, added := LoadNext(p, host, loaded);
        if stop.Some? {
          return stop.value;
        }
        AfterAfter(before, added, LoadObjects(next, host, loaded + 1));
        loaded, p := loaded + 1, next;
      }
      status := Success;
    }

    /** `zen_keybinds_load_config`. */
    method LoadConfig(file: File, host: Host) returns (status: Status)
      requires Valid()
      modifies this, head, list
      ensures status == Load(file, host).status
      ensures status != Overran ==> Valid() && bindings == old(bindings) + Load(file, host).added
    {
      if file.Missing? {
        return Success;
      }
      if file.Unreadable? {
        return Failure;
      }
      var bytes := file.bytes;
      if |bytes| == 0 || |bytes| > MAX_SIZE {
        return Failure;
      }
      var text := bytes[..Until(bytes, '\0')];
      var hit := Find(text, Quoted("bindings"));
      if hit.None? {
        return Failure;
      }
      var found := Array(text[hit.value + 10..]);
      if found.None? {
        return Failure;
      }
      status := LoadArray(found.value, host);
    }

    /** The loop over the default bindings. */
    method RegisterAll(bs: seq<Binding>, memory: nat -> bool) returns (ok: bool)
      requires Valid() && forall i :: 0 <= i < |bs| ==> bs[i].command.None?
      modifies this, head, list
      ensures Valid() && Grown()
      ensures ok <==> forall i :: 0 <= i < |bs| ==> memory(i)
      ensures ok ==> bindings == old(bindings) + bs
    {
      ok := true;
      var i := 0;
      ghost var all := bindings + bs;
      assert bs[0..] == bs;
      while ok && i < |bs|
        invariant 0 <= i <= |bs| && Valid() && Grown()
        invariant forall j :: 0 <= j < i ==> memory(j)
        invariant if ok then bindings + bs[i..] == all else i < |bs| && !memory(i)
      {
        ghost var before := bindings;
        ok := RegisterBinding(bs[i], memory(i), true);
        if ok {
          AppendFirst(before, bs[i..]);
          assert bs[i..][1..] == bs[i + 1..];
          i := i + 1;
        }
      }
    }

    /** The default bindings, all or none. */
    method RegisterDefaults(host: Host) returns (ok: bool)
      requires Valid()
      modifies this, head, list
      ensures Valid() && Grown() && ok == DefaultsFit(host)
      ensures bindings == if ok then DEFAULTS else []
    {
      Reset();
      ok := RegisterAll(DEFAULTS, host.defaults);
      if !ok {
        Destroy();
      }
    }

    /** `zen_keybinds_init`: the five defaults, then the user's file, whose status is ignored.
        Without memory for a default the registry is given up. */
    method Init(file: File, host: Host) returns (ok: bool)
      requires Valid()
      modifies this, head, list
      ensures ok == DefaultsFit(host)
      ensures !ok ==> Valid() && bindings == []
      ensures ok && Load(file, host).status != Overran ==> Valid() && bindings == DEFAULTS + Load(file, host).added
    {
      ok := RegisterDefaults(host);
      if ok {
        var status := LoadConfig(file, host);
      }
    }
  }
}
