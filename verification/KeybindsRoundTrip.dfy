/** Printing bindings as the unit tests do, and loading the printed text back. */
module KeybindsRoundTrip {
  import opened Prelude
  import opened Scanning
  import opened Fields
  import opened Modifiers
  import opened Keybinds
  import opened Segments

  /** A line of the file.  The keysym is given by its name; a command is optional. */
  datatype Entry = Entry(modifiers: Mods, key: string, action: Action, command: Option<string>)

  // ---------------------------------------------------------------------------------------
  // The printer.  Each function takes the text that is to follow.
  // ---------------------------------------------------------------------------------------

  /** A quoted string. */
  function Str(s: string, rest: string): string { "\"" + (s + ("\"" + rest)) }

  function NameIf(on: bool, name: string): seq<string> { if on then [name] else [] }

  /** The names of the modifiers in the order they are printed. */
  function Names(mods: Mods): seq<string> {
    NameIf(Ctrl in mods, "ctrl") + NameIf(Alt in mods, "alt") +
    NameIf(Logo in mods, "super") + NameIf(Shift in mods, "shift")
  }

  /** Quoted strings with commas between them. */
  function List(names: seq<string>, rest: string): string {
    if names == [] then rest
    else Str(names[0], if |names| > 1 then "," + List(names[1..], rest) else rest)
  }

  function PrintFields(e: Entry): string {
    Str("key", ": " + Str(e.key, ", " + Str("action", ": " + Str(ActionName(e.action),
      match e.command
      case None => "}"
      case Some(c) => ", " + Str("command", ": " + Str(c, "}"))))))
  }

  function PrintObject(e: Entry): string {
    "{" + Str("modifiers", ": [" + List(Names(e.modifiers), "], " + PrintFields(e)))
  }

  function PrintAll(es: seq<Entry>, rest: string): string {
    if es == [] then rest
    else "  " + (PrintObject(es[0]) + ((if |es| > 1 then ",\n" else "\n") + PrintAll(es[1..], rest)))
  }

  function PrintFile(es: seq<Entry>): string {
    "{" + Str("bindings", ": [\n" + PrintAll(es, "]}\n"))
  }

  // ---------------------------------------------------------------------------------------
  // An object as pieces between quotes
  // ---------------------------------------------------------------------------------------

  lemma JoinTwo(gap: string, name: string, rest: seq<string>)
    requires rest != []
    ensures Join([gap, name] + rest) == gap + Str(name, Join(rest))
  {
    var all := [gap, name] + rest;
    assert all[1..] == [name] + rest && all[1..][1..] == rest;
  }

  function ModPieces(front: string, names: seq<string>, back: string, rest: seq<string>): seq<string>
    decreases |names|
  {
    if names == [] then [front + back] + rest
    else [front, names[0]] + ModPieces(if |names| > 1 then "," else "", names[1..], back, rest)
  }

  lemma {:induction false} JoinModPieces(front: string, names: seq<string>, back: string, rest: seq<string>)
    requires rest != []
    ensures ModPieces(front, names, back, rest) != []
    ensures Join(ModPieces(front, names, back, rest)) == front + List(names, back + ("\"" + Join(rest)))
    decreases |names|
  {
    if names == [] {
      assert ([front + back] + rest)[1..] == rest;
      assert (front + back) + ("\"" + Join(rest)) == front + (back + ("\"" + Join(rest)));
    } else {
      var gap := if |names| > 1 then "," else "";
      JoinModPieces(gap, names[1..], back, rest);
      JoinTwo(front, names[0], ModPieces(gap, names[1..], back, rest));
      var end := back + ("\"" + Join(rest));
      assert |names| == 1 ==> gap + List(names[1..], end) == end;
    }
  }

  function ActionPieces(e: Entry): seq<string> {
    [", ", "action"] + ([": ", ActionName(e.action)] +
      match e.command
      case None => ["}"]
      case Some(c) => [", ", "command"] + ([": ", c] + ["}"]))
  }

  /** What follows the modifiers, from the name `key` on, its opening quote left out. */
  function FieldPieces(e: Entry): seq<string> {
    ["key"] + ([": ", e.key] + ActionPieces(e))
  }

  function Pieces(e: Entry): seq<string> {
    ["{", "modifiers"] + ModPieces(": [", Names(e.modifiers), "], ", FieldPieces(e))
  }

  lemma JoinFieldPieces(e: Entry)
    ensures "\"" + Join(FieldPieces(e)) == PrintFields(e)
  {
    assert Join(["}"]) == "}";
    var end := if e.command.Some? then [", ", "command"] + ([": ", e.command.value] + ["}"]) else ["}"];
    if e.command.Some? {
      JoinTwo(": ", e.command.value, ["}"]);
      JoinTwo(", ", "command", [": ", e.command.value] + ["}"]);
    }
    JoinTwo(": ", ActionName(e.action), end);
    JoinTwo(", ", "action", [": ", ActionName(e.action)] + end);
    JoinTwo(": ", e.key, ActionPieces(e));
    assert FieldPieces(e)[1..] == [": ", e.key] + ActionPieces(e);
  }

  lemma PrintedPieces(e: Entry)
    ensures PrintObject(e) == Join(Pieces(e))
  {
    JoinFieldPieces(e);
    JoinModPieces(": [", Names(e.modifiers), "], ", FieldPieces(e));
    JoinTwo("{", "modifiers", ModPieces(": [", Names(e.modifiers), "], ", FieldPieces(e)));
  }

  // ---------------------------------------------------------------------------------------
  // The three string fields
  // ---------------------------------------------------------------------------------------

  predicate Letter(c: char) { 'a' <= c <= 'z' }

  predicate NoWord(gap: string) { gap == "" || !Letter(gap[0]) }

  lemma {:induction false} ModPiecesSplit(front: string, names: seq<string>, back: string, rest: seq<string>,
                                         key: string)
    requires key != "" && Letter(key[0]) && key !in names && NoWord(front) && back != "" && NoWord(back)
    ensures ModPieces(front, names, back, rest) == ModPieces(front, names, back, []) + rest
    ensures ModPieces(front, names, back, []) != [] && key !in ModPieces(front, names, back, [])
    decreases |names|
  {
    if names == [] {
      assert [front + back] + [] == [front + back];
      assert (front + back)[0] == if front == "" then back[0] else front[0];
    } else {
      var gap := if |names| > 1 then "," else "";
      ModPiecesSplit(gap, names[1..], back, rest, key);
      assert front != key && names[0] != key;
    }
  }

  /** Reading past one gap and one quoted word. */
  lemma Pair(gap: string, word: string, rest: seq<string>, key: string)
    requires rest != [] && rest[0] != key
    ensures SegField([gap, word] + rest, key) ==
            if word == key && NameGap(rest[0]) && |rest| >= 3 then Some(rest[1]) else SegField(rest, key)
    ensures WellGapped([gap, word] + rest, key) <==>
            && (word == key ==> (NameGap(rest[0]) && |rest| >= 3) || OtherGap(rest[0]))
            && WellGapped(rest, key)
  {
    var all := [gap, word] + rest;
    assert all[1..] == [word] + rest && all[2..] == rest && all[1..][1..] == rest;
    assert SegField(all[1..], key) == SegField(rest, key);
  }

  /** Behind `x`: the fields read as they were printed, whatever the key and the command say. */
  lemma FieldPiecesRead(x: string, e: Entry, key: string)
    requires key == "key" || key == "action" || key == "command"
    ensures WellGapped([x] + FieldPieces(e), key)
    ensures SegField([x] + FieldPieces(e), key) ==
            if key == "key" then Some(e.key)
            else if key == "action" then Some(ActionName(e.action))
            else e.command
  {
    var end := if e.command.Some? then [", ", "command"] + ([": ", e.command.value] + ["}"]) else ["}"];
    if e.command.Some? {
      Pair(": ", e.command.value, ["}"], key);
      Pair(", ", "command", [": ", e.command.value] + ["}"], key);
    }
    Pair(": ", ActionName(e.action), end, key);
    Pair(", ", "action", [": ", ActionName(e.action)] + end, key);
    Pair(": ", e.key, ActionPieces(e), key);
    assert [x] + FieldPieces(e) == [x, "key"] + ([": ", e.key] + ActionPieces(e));
    Pair(x, "key", [": ", e.key] + ActionPieces(e), key);
  }

  /** No quotes, backslashes, braces or NULs. */
  predicate Clean(s: string) { '"' !in s && '\\' !in s && '{' !in s && '}' !in s && '\0' !in s }

  ghost predicate Printable(e: Entry) {
    && e.modifiers <= {Ctrl, Alt, Logo, Shift}
    && Clean(e.key) && (e.command.Some? ==> Clean(e.command.value))
  }

  lemma {:induction false} ModPiecesPlain(front: string, names: seq<string>, back: string, rest: seq<string>)
    requires Plain(front) && AllPlain(names) && Plain(back) && AllPlain(rest)
    ensures AllPlain(ModPieces(front, names, back, rest))
    decreases |names|
  {
    if names != [] {
      assert names[0] in names;
      ModPiecesPlain(if |names| > 1 then "," else "", names[1..], back, rest);
    }
  }

  lemma PlainTwo(gap: string, word: string, rest: seq<string>)
    requires Plain(gap) && Plain(word) && AllPlain(rest)
    ensures AllPlain([gap, word] + rest)
  {
  }

  lemma NamesAre(mods: Mods)
    ensures forall n <- Names(mods) :: n == "ctrl" || n == "alt" || n == "super" || n == "shift"
  {
  }

  lemma PlainNames(mods: Mods)
    ensures AllPlain(Names(mods))
  {
    NamesAre(mods);
    assert Plain("ctrl") && Plain("alt") && Plain("super") && Plain("shift");
  }

  lemma PlainAction(a: Action)
    ensures Plain(ActionName(a))
  {
  }

  lemma PiecesPlain(e: Entry)
    requires Printable(e)
    ensures AllPlain(Pieces(e))
  {
    PlainNames(e.modifiers);
    PlainAction(e.action);
    var end := ["}"];
    assert AllPlain(end);
    if e.command.Some? {
      PlainTwo(": ", e.command.value, end);
      PlainTwo(", ", "command", [": ", e.command.value] + end);
      end := [", ", "command"] + ([": ", e.command.value] + ["}"]);
    }
    PlainTwo(": ", ActionName(e.action), end);
    PlainTwo(", ", "action", [": ", ActionName(e.action)] + end);
    PlainTwo(": ", e.key, ActionPieces(e));
    assert AllPlain(FieldPieces(e));
    ModPiecesPlain(": [", Names(e.modifiers), "], ", FieldPieces(e));
    PlainTwo("{", "modifiers", ModPieces(": [", Names(e.modifiers), "], ", FieldPieces(e)));
  }

  lemma NamesAvoid(mods: Mods, key: string)
    requires key == "key" || key == "action" || key == "command"
    ensures key !in Names(mods) && key != "" && Letter(key[0]) && key != "modifiers"
  {
    NamesAre(mods);
    assert "alt"[0] != key[0] || |key| != 3;
  }

  lemma Prefixed(m: seq<string>, rest: seq<string>)
    ensures (["{", "modifiers"] + m)[1..] == ["modifiers"] + m
    ensures ["{", "modifiers"] + (m + rest) == (["{", "modifiers"] + m) + rest
  {
  }

  /** The pieces up to the modifiers, and the rest. */
  lemma PiecesSplit(e: Entry, key: string) returns (pre: seq<string>)
    requires key == "key" || key == "action" || key == "command"
    ensures pre != [] && key !in pre[1..] && Pieces(e) == pre + FieldPieces(e)
  {
    var m := ModPieces(": [", Names(e.modifiers), "], ", []);
    NamesAvoid(e.modifiers, key);
    ModPiecesSplit(": [", Names(e.modifiers), "], ", FieldPieces(e), key);
    pre := ["{", "modifiers"] + m;
    Prefixed(m, FieldPieces(e));
  }

  lemma FieldsRead(e: Entry, key: string)
    requires Printable(e) && (key == "key" || key == "action" || key == "command")
    ensures Field(PrintObject(e), key) ==
            if key == "key" then Some(e.key)
            else if key == "action" then Some(ActionName(e.action))
            else e.command
  {
    var pre := PiecesSplit(e, key);
    SegSkip(pre, FieldPieces(e), key);
    FieldPiecesRead(pre[|pre| - 1], e, key);
    PiecesPlain(e);
    PrintedPieces(e);
    FieldOfSegments(Pieces(e), key);
  }

  // ---------------------------------------------------------------------------------------
  // The modifiers
  // ---------------------------------------------------------------------------------------

  lemma OneToken(name: string, more: string)
    requires '"' !in name
    ensures Tokens(Str(name, more)) == [name] + Tokens(more) && Closed(Str(name, more)) == Closed(more)
  {
    var s := Str(name, more);
    UntilAfter(name, '"', more);
    assert s[1..] == name + ("\"" + more);
    assert BehindToken(s) == more && s[1..][..|name|] == name;
  }

  lemma NameAndMore(name: string, more: string)
    requires '"' !in name
    ensures Tokens(Str(name, "," + more)) == [name] + Tokens(more)
    ensures Closed(Str(name, "," + more)) == Closed(more)
  {
    OneToken(name, "," + more);
    assert ("," + more)[1..] == more;
  }

  lemma LastName(name: string, rest: string)
    requires '"' !in name
    ensures Tokens(Str(name, "]" + rest)) == [name] && Closed(Str(name, "]" + rest))
  {
    OneToken(name, "]" + rest);
  }

  /** The text of the list reads as the list. */
  ghost predicate Reads(s: string, names: seq<string>) { Closed(s) && Tokens(s) == names }

  lemma ReadsOneMore(name: string, s: string, names: seq<string>)
    requires '"' !in name && Reads(s, names)
    ensures Reads(Str(name, "," + s), [name] + names)
  {
    NameAndMore(name, s);
  }

  lemma {:induction false} ListTokens(names: seq<string>, rest: string)
    requires AllPlain(names)
    ensures Reads(List(names, "]" + rest), names)
  {
    if names != [] {
      assert names[0] in names;
      ListTokens(names[1..], rest);
      assert [names[0]] + names[1..] == names;
      if |names| > 1 {
        ReadsOneMore(names[0], List(names[1..], "]" + rest), names[1..]);
      } else {
        LastName(names[0], rest);
      }
    }
  }

  lemma {:induction false} BitsConcat(a: seq<string>, b: seq<string>)
    ensures Bits(a + b) == Bits(a) + Bits(b)
  {
    if a == [] {
      assert a + b == b;
    } else {
      assert (a + b)[1..] == a[1..] + b;
      BitsConcat(a[1..], b);
    }
  }

  lemma NameIfBits(on: bool, name: string)
    ensures Bits(NameIf(on, name)) == if on then Token(name) else {}
  {
    assert [name][1..] == [];
  }

  lemma NamesRead(mods: Mods)
    requires mods <= {Ctrl, Alt, Logo, Shift}
    ensures Bits(Names(mods)) == mods
  {
    var c, a := NameIf(Ctrl in mods, "ctrl"), NameIf(Alt in mods, "alt");
    var l, s := NameIf(Logo in mods, "super"), NameIf(Shift in mods, "shift");
    assert Names(mods) == c + a + l + s;
    BitsConcat(c + a + l, s);
    BitsConcat(c + a, l);
    BitsConcat(c, a);
    TokenFacts("", "");
    NameIfBits(Ctrl in mods, "ctrl");
    NameIfBits(Alt in mods, "alt");
    NameIfBits(Logo in mods, "super");
    NameIfBits(Shift in mods, "shift");
  }

  lemma FirstName(name: string, rest: string)
    ensures Find("{" + Str(name, rest), Quoted(name)) == Some(1)
    ensures ("{" + Str(name, rest))[1 + |Quoted(name)|..] == rest
  {
    var s, t, pat := "{" + Str(name, rest), Str(name, rest), Quoted(name);
    assert s[1..] == t && s[0] != pat[0];
    HeadMismatch(s, pat);
    FindNext(s, pat);
    assert t == pat + rest && t[0..|pat|] == pat;
    FindIs(t, pat, 0);
  }

  /** The value of a key that opens an array. */
  lemma ColonArray(list: string)
    ensures AfterSpaces(": [" + list) == ": [" + list && (": [" + list)[1..] == " [" + list
    ensures Array(" [" + list) == Some(list) && Array(": [" + list) == Some(list)
  {
    var p := " [" + list;
    assert p[1..] == "[" + list;
    assert Until(p, '[') == 1 + Until(p[1..], '[') && p[2..] == list;
    assert (":" + p)[1..] == p && ":" + p == ": [" + list;
    assert Until(":" + p, '[') == 1 + Until(p, '[') && (":" + p)[3..] == list;
  }

  lemma ModifiersAt(list: string)
    ensures ModifiersField("{" + Str("modifiers", ": [" + list)) == Some(" [" + list)
  {
    FirstName("modifiers", ": [" + list);
    ColonArray(list);
    assert |Quoted("modifiers")| == 11;
  }

  lemma ArrayRead(names: seq<string>, rest: string)
    requires AllPlain(names)
    ensures ClosedArray(" [" + List(names, "]" + rest))
    ensures ArrayBits(" [" + List(names, "]" + rest)) == Bits(names)
  {
    ColonArray(List(names, "]" + rest));
    ListTokens(names, rest);
  }

  lemma Associates(a: string, b: string, c: string)
    ensures (a + b) + c == a + (b + c)
  {
  }

  lemma ModifiersRead(e: Entry)
    requires Printable(e)
    ensures ModifiersField(PrintObject(e)).Some?
    ensures ClosedArray(ModifiersField(PrintObject(e)).value)
    ensures ArrayBits(ModifiersField(PrintObject(e)).value) == e.modifiers
  {
    var rest := ", " + PrintFields(e);
    ModifiersAt(List(Names(e.modifiers), "], " + PrintFields(e)));
    Associates("]", ", ", PrintFields(e));
    assert "]" + ", " == "], ";
    PlainNames(e.modifiers);
    ArrayRead(Names(e.modifiers), rest);
    NamesRead(e.modifiers);
  }

  // ---------------------------------------------------------------------------------------
  // One object, the list, the file
  // ---------------------------------------------------------------------------------------

  /** What an entry stands for. */
  function BindingFor(e: Entry, host: Host): Binding {
    Binding(e.modifiers, host.keysymOf(e.key), e.action, e.command)
  }

  /** There is memory for everything. */
  ghost predicate Plenty(host: Host) {
    forall k :: host.memory(k) == Memory(true, true, true, true, true)
  }

  lemma ParseWith(obj: string, beyond: string, p: string, host: Host, k: nat)
    requires Plenty(host) && ModifiersField(obj) == Some(p) && ClosedArray(p)
    ensures ParseObject(obj, beyond, host, k) == BindingOf(obj, ArrayBits(p), host, k)
  {
    ClosedArrayIsLocal(p, beyond);
    assert host.memory(k) == Memory(true, true, true, true, true);
  }

  /** The table of action names read backwards. */
  lemma ActionRead(a: Action)
    ensures ParseAction(ActionName(a)) == Some(a)
  {
  }

  lemma ObjectRead(e: Entry, beyond: string, host: Host, k: nat)
    requires Plenty(host) && Printable(e) && host.keysymOf(e.key) != 0
    ensures ParseObject(PrintObject(e), beyond, host, k) == Parsed(BindingFor(e, host))
  {
    var obj := PrintObject(e);
    ModifiersRead(e);
    ParseWith(obj, beyond, ModifiersField(obj).value, host, k);
    FieldsRead(e, "key");
    FieldsRead(e, "action");
    FieldsRead(e, "command");
    ActionRead(e.action);
  }

  /** A closing brace at the end and no other brace. */
  predicate BraceLast(s: string) {
    s != "" && s[|s| - 1] == '}' && forall i :: 0 <= i < |s| - 1 ==> s[i] != '{' && s[i] != '}'
  }

  predicate NoBrace(s: string) { '{' !in s && '}' !in s }

  lemma BraceLastAfter(a: string, s: string)
    requires NoBrace(a) && BraceLast(s)
    ensures BraceLast(a + s)
  {
  }

  lemma BraceLastStr(w: string, s: string)
    requires NoBrace(w) && BraceLast(s)
    ensures BraceLast(Str(w, s))
  {
    BraceLastAfter("\"", s);
    BraceLastAfter(w, "\"" + s);
    BraceLastAfter("\"", w + ("\"" + s));
  }

  lemma {:induction false} BraceLastList(names: seq<string>, s: string)
    requires (forall n <- names :: NoBrace(n)) && BraceLast(s)
    ensures BraceLast(List(names, s))
  {
    if names != [] {
      assert names[0] in names;
      BraceLastList(names[1..], s);
      BraceLastAfter(",", List(names[1..], s));
      BraceLastStr(names[0], if |names| > 1 then "," + List(names[1..], s) else s);
    }
  }

  lemma FieldsBraceLast(e: Entry)
    requires Printable(e)
    ensures BraceLast(PrintFields(e))
  {
    var end := "}";
    if e.command.Some? {
      var c := e.command.value;
      BraceLastStr(c, "}");
      BraceLastAfter(": ", Str(c, "}"));
      BraceLastStr("command", ": " + Str(c, "}"));
      BraceLastAfter(", ", Str("command", ": " + Str(c, "}")));
      end := ", " + Str("command", ": " + Str(c, "}"));
    }
    var a := ActionName(e.action);
    assert NoBrace(a);
    BraceLastStr(a, end);
    BraceLastAfter(": ", Str(a, end));
    BraceLastStr("action", ": " + Str(a, end));
    BraceLastAfter(", ", Str("action", ": " + Str(a, end)));
    BraceLastStr(e.key, ", " + Str("action", ": " + Str(a, end)));
    BraceLastAfter(": ", Str(e.key, ", " + Str("action", ": " + Str(a, end))));
    BraceLastStr("key", ": " + Str(e.key, ", " + Str("action", ": " + Str(a, end))));
  }

  lemma NamesNoBrace(mods: Mods)
    ensures forall n <- Names(mods) :: NoBrace(n)
  {
    NamesAre(mods);
  }

  lemma ObjectBraceLast(e: Entry)
    requires Printable(e)
    ensures PrintObject(e)[0] == '{' && BraceLast(PrintObject(e)[1..])
  {
    FieldsBraceLast(e);
    var t := "], " + PrintFields(e);
    BraceLastAfter("], ", PrintFields(e));
    NamesNoBrace(e.modifiers);
    BraceLastList(Names(e.modifiers), t);
    BraceLastAfter(": [", List(Names(e.modifiers), t));
    BraceLastStr("modifiers", ": [" + List(Names(e.modifiers), t));
    assert PrintObject(e)[1..] == Str("modifiers", ": [" + List(Names(e.modifiers), t));
  }

  lemma {:induction false} EndReached(s: string, q: nat, n: nat)
    requires 0 < q < n <= |s| && Depth(s[..q]) == 1 && forall m :: 0 < m < q ==> Depth(s[..m]) > 0
    requires s[n - 1] == '}' && forall i :: q <= i < n - 1 ==> s[i] != '{' && s[i] != '}'
    ensures EndFrom(s, q, 1) == n
    decreases n - q
  {
    assert s[..q + 1] == s[..q] + [s[q]];
    DepthSnoc(s[..q], s[q]);
    if q < n - 1 {
      EndReached(s, q + 1, n);
    }
  }

  lemma EndsThere(obj: string, beyond: string)
    requires obj != "" && obj[0] == '{' && BraceLast(obj[1..])
    ensures (obj + beyond)[0] == '{' && ObjectEnd(obj + beyond) == |obj|
  {
    var s := obj + beyond;
    assert s[..1] == ['{'];
    assert forall i :: 1 <= i < |obj| ==> s[i] == obj[1..][i - 1];
    EndReached(s, 1, |obj|);
  }

  lemma ObjectEnds(e: Entry, beyond: string)
    requires Printable(e)
    ensures (PrintObject(e) + beyond)[0] == '{'
    ensures ObjectEnd(PrintObject(e) + beyond) == |PrintObject(e)|
  {
    ObjectBraceLast(e);
    EndsThere(PrintObject(e), beyond);
  }

  function BindingsFor(es: seq<Entry>, host: Host): seq<Binding> {
    if es == [] then [] else [BindingFor(es[0], host)] + BindingsFor(es[1..], host)
  }

  ghost predicate AllKnown(es: seq<Entry>, host: Host) {
    forall e <- es :: Printable(e) && host.keysymOf(e.key) != 0
  }

  lemma LoadOne(gap: string, obj: string, beyond: string, b: Binding, host: Host, k: nat)
    requires OnlyGap(gap) && obj != "" && (obj + beyond)[0] == '{'
    requires ObjectEnd(obj + beyond) == |obj| && ParseObject(obj, beyond, host, k) == Parsed(b)
    ensures LoadObjects(gap + ("  " + (obj + beyond)), host, k) == After([b], LoadObjects(beyond, host, k + 1))
  {
    GapDropped(gap, "  " + (obj + beyond));
    GapDropped("  ", obj + beyond);
    assert AfterGap(obj + beyond) == obj + beyond;
    assert (obj + beyond)[..|obj|] == obj && (obj + beyond)[|obj|..] == beyond;
  }

  lemma EntryRead(e: Entry, gap: string, beyond: string, host: Host, k: nat)
    requires Plenty(host) && Printable(e) && host.keysymOf(e.key) != 0 && OnlyGap(gap)
    ensures LoadObjects(gap + ("  " + (PrintObject(e) + beyond)), host, k)
            == After([BindingFor(e, host)], LoadObjects(beyond, host, k + 1))
  {
    ObjectEnds(e, beyond);
    ObjectRead(e, beyond, host, k);
    LoadOne(gap, PrintObject(e), beyond, BindingFor(e, host), host, k);
  }

  lemma KnownTail(es: seq<Entry>, host: Host)
    requires es != [] && AllKnown(es, host)
    ensures Printable(es[0]) && host.keysymOf(es[0].key) != 0 && AllKnown(es[1..], host)
  {
    assert es[0] in es;
  }

  lemma {:induction false} ListRead(es: seq<Entry>, gap: string, host: Host, k: nat)
    requires Plenty(host) && AllKnown(es, host) && OnlyGap(gap)
    ensures LoadObjects(gap + PrintAll(es, "]}\n"), host, k) == Loaded(Success, BindingsFor(es, host))
    decreases |es|
  {
    if es == [] {
      GapDropped(gap, "]}\n");
      assert AfterGap("]}\n") == "]}\n";
    } else {
      var next := if |es| > 1 then ",\n" else "\n";
      KnownTail(es, host);
      EntryRead(es[0], gap, next + PrintAll(es[1..], "]}\n"), host, k);
      ListRead(es[1..], next, host, k + 1);
    }
  }

  lemma {:induction false} NoNulList(names: seq<string>, rest: string)
    requires (forall n <- names :: '\0' !in n) && '\0' !in rest
    ensures '\0' !in List(names, rest)
  {
    if names != [] {
      assert names[0] in names;
      NoNulList(names[1..], rest);
    }
  }

  lemma NoNulStr(gap: string, w: string, rest: string)
    requires '\0' !in gap && '\0' !in w && '\0' !in rest
    ensures '\0' !in gap + Str(w, rest)
  {
  }

  lemma NamesNoNul(mods: Mods)
    ensures forall n <- Names(mods) :: '\0' !in n
  {
    NamesAre(mods);
  }

  lemma NoNulObject(e: Entry)
    requires Printable(e)
    ensures '\0' !in PrintObject(e)
  {
    var a := ActionName(e.action);
    assert '\0' !in a;
    var end := "}";
    if e.command.Some? {
      NoNulStr(": ", e.command.value, "}");
      NoNulStr(", ", "command", ": " + Str(e.command.value, "}"));
      end := ", " + Str("command", ": " + Str(e.command.value, "}"));
    }
    NoNulStr(": ", a, end);
    NoNulStr(", ", "action", ": " + Str(a, end));
    NoNulStr(": ", e.key, ", " + Str("action", ": " + Str(a, end)));
    NoNulStr("", "key", ": " + Str(e.key, ", " + Str("action", ": " + Str(a, end))));
    assert "" + PrintFields(e) == PrintFields(e);
    NamesNoNul(e.modifiers);
    var t := List(Names(e.modifiers), "], " + PrintFields(e));
    NoNulList(Names(e.modifiers), "], " + PrintFields(e));
    NoNulStr("{", "modifiers", ": [" + t);
  }

  lemma {:induction false} NoNulAll(es: seq<Entry>)
    requires forall e <- es :: Printable(e)
    ensures '\0' !in PrintAll(es, "]}\n")
  {
    if es != [] {
      assert es[0] in es;
      NoNulObject(es[0]);
      NoNulAll(es[1..]);
    }
  }

  lemma ArrayFound(body: string)
    ensures BindingsArray("{" + Str("bindings", ": [\n" + body)) == Some("\n" + body)
  {
    assert ": [\n" + body == ": [" + ("\n" + body);
    FirstName("bindings", ": [" + ("\n" + body));
    assert |Quoted("bindings")| == 10;
    ColonArray("\n" + body);
  }

  lemma LoadText(text: string, s: string, host: Host)
    requires 0 < |text| <= MAX_SIZE && '\0' !in text && BindingsArray(text) == Some(s)
    ensures Load(Contents(text), host) == LoadObjects(s, host, 0)
  {
    NoneUntil(text, '\0');
    assert text[..|text|] == text;
  }

  lemma TooLarge(text: string, host: Host)
    requires |text| > MAX_SIZE
    ensures Load(Contents(text), host) == Loaded(Failure, [])
  {
  }

  lemma FileText(es: seq<Entry>)
    requires forall e <- es :: Printable(e)
    ensures '\0' !in PrintFile(es)
    ensures BindingsArray(PrintFile(es)) == Some("\n" + PrintAll(es, "]}\n"))
  {
    var body := PrintAll(es, "]}\n");
    NoNulAll(es);
    NoNulStr("{", "bindings", ": [\n" + body);
    ArrayFound(body);
  }

  /** Round trip: whatever the modifiers, actions, key names and commands, a key named `action`
      or `command` included, loading the printed text succeeds and adds exactly the bindings
      that were printed, in order, as long as the file is within the size limit. */
  lemma RoundTrip(es: seq<Entry>, host: Host)
    requires Plenty(host) && AllKnown(es, host)
    ensures Load(Contents(PrintFile(es)), host) ==
            if |PrintFile(es)| <= MAX_SIZE then Loaded(Success, BindingsFor(es, host)) else Loaded(Failure, [])
  {
    if |PrintFile(es)| > MAX_SIZE {
      TooLarge(PrintFile(es), host);
    } else {
      FileText(es);
      ListRead(es, "\n", host, 0);
      LoadText(PrintFile(es), "\n" + PrintAll(es, "]}\n"), host);
    }
  }

  // ---------------------------------------------------------------------------------------
  // The printer as it is written: appending to a buffer
  // ---------------------------------------------------------------------------------------

  lemma {:induction false} ListEnd(names: seq<string>, rest: string)
    ensures List(names, rest) == List(names, "") + rest
  {
    if names != [] {
      ListEnd(names[1..], rest);
    }
  }

  lemma {:induction false} ListAppend(names: seq<string>, name: string)
    ensures List(names + [name], "") == List(names, "") + ((if names == [] then "" else ",") + Quoted(name))
  {
    if names == [] {
      assert Str(name, "") == Quoted(name);
    } else {
      assert (names + [name])[1..] == names[1..] + [name];
      ListAppend(names[1..], name);
      if |names| == 1 {
        assert List(names[1..], "") == "" && Str(name, "") == Quoted(name);
      }
    }
  }

  /** One `strcat` of `modifiers_to_json_array`: the first name comes without a comma. */
  method AppendName(out: string, first: bool, on: bool, name: string, ghost names: seq<string>)
    returns (out': string, first': bool)
    requires out == "[" + List(names, "") && first == (names == [])
    ensures out' == "[" + List(names + NameIf(on, name), "") && first' == (names + NameIf(on, name) == [])
  {
    out', first' := out, first;
    if on {
      ListAppend(names, name);
      out', first' := out + ((if first then "" else ",") + Quoted(name)), false;
    } else {
      assert names + [] == names;
    }
  }

  method ModifiersToJsonArray(mods: Mods) returns (out: string)
    ensures out == "[" + List(Names(mods), "]")
  {
    ghost var c, a := NameIf(Ctrl in mods, "ctrl"), NameIf(Alt in mods, "alt");
    ghost var l, s := NameIf(Logo in mods, "super"), NameIf(Shift in mods, "shift");
    var first := true;
    out := "[";
    out, first := AppendName(out, first, Ctrl in mods, "ctrl", []);
    assert [] + c == c;
    out, first := AppendName(out, first, Alt in mods, "alt", c);
    out, first := AppendName(out, first, Logo in mods, "super", c + a);
    out, first := AppendName(out, first, Shift in mods, "shift", c + a + l);
    ListEnd(Names(mods), "]");
    Associates("[", List(Names(mods), ""), "]");
    out := out + "]";
  }

  lemma ArrayThen(names: seq<string>, rest: string)
    ensures ("[" + List(names, "]")) + (", " + rest) == "[" + List(names, "], " + rest)
  {
    ListEnd(names, "]");
    ListEnd(names, "], " + rest);
    Associates(List(names, ""), "]", ", " + rest);
    Associates("]", ", ", rest);
    Associates("[", List(names, "]"), ", " + rest);
  }

  lemma StrSplit(name: string, rest: string)
    ensures Str(name, rest) == Quoted(name) + rest
  {
  }

  /** One object: the array, then the fields. */
  method WriteObject(e: Entry) returns (obj: string)
    ensures obj == PrintObject(e)
  {
    var mods := ModifiersToJsonArray(e.modifiers);
    obj := "{" + (Quoted("modifiers") + (": " + (mods + (", " + PrintFields(e)))));
    ArrayThen(Names(e.modifiers), PrintFields(e));
    Associates(": ", "[", List(Names(e.modifiers), "], " + PrintFields(e)));
    assert ": " + "[" == ": [";
    StrSplit("modifiers", ": [" + List(Names(e.modifiers), "], " + PrintFields(e)));
  }

  /** One `fprintf`. */
  method WriteLine(f: string, e: Entry, more: bool, ghost rest: seq<Entry>) returns (f': string)
    requires rest != [] && rest[0] == e && (more <==> |rest| > 1)
    ensures f' + PrintAll(rest[1..], "]}\n") == f + PrintAll(rest, "]}\n")
  {
    var obj := WriteObject(e);
    var end := if more then ",\n" else "\n";
    ghost var tail := PrintAll(rest[1..], "]}\n");
    f' := f + ("  " + (obj + end));
    Associates(obj, end, tail);
    Associates("  ", obj + end, tail);
    Associates(f, "  " + (obj + end), tail);
  }

  /** The loop that writes one line for each binding. */
  method WriteKeybindsJson(es: seq<Entry>) returns (f: string)
    ensures f == PrintFile(es)
  {
    f := "{" + Str("bindings", ": [\n");
    assert f + PrintAll(es, "]}\n") == PrintFile(es);
    assert es[0..] == es;
    for i := 0 to |es|
      invariant f + PrintAll(es[i..], "]}\n") == PrintFile(es)
    {
      f := WriteLine(f, es[i], i < |es| - 1, es[i..]);
      assert es[i..][1..] == es[i + 1..];
    }
    f := f + "]}\n";
  }
}
