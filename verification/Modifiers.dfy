/** The modifiers of a binding: `parse_modifier_token`, `parse_modifiers_array` and
    `extract_modifiers_field`. */
module Modifiers {
  import opened Prelude
  import opened Scanning
  import opened Fields

  /** The eight `WLR_MODIFIER_*` bits; a mask is the set of its bits, so `|` is union. */
  datatype Modifier = Shift | Caps | Ctrl | Alt | Mod2 | Mod3 | Logo | Mod5

  type Mods = set<Modifier>

  function Lower(c: char): char {
    if 'A' <= c <= 'Z' then c + 32 as char else c
  }

  /** `strncasecmp` on strings of the same length. */
  predicate SameWord(a: string, b: string) {
    |a| == |b| && forall i :: 0 <= i < |a| ==> Lower(a[i]) == Lower(b[i])
  }

  /** `parse_modifier_token`: names in any case, no bit for everything else. */
  function Token(tok: string): Mods {
    if SameWord(tok, "ctrl") then {Ctrl}
    else if SameWord(tok, "alt") then {Alt}
    else if SameWord(tok, "super") then {Logo}
    else if SameWord(tok, "shift") then {Shift}
    else {}
  }

  /** Each of the four names has its bit, in any case, and nothing else has one. */
  lemma TokenFacts(a: string, b: string)
    ensures Token("ctrl") == {Ctrl} && Token("alt") == {Alt} && Token("super") == {Logo} && Token("shift") == {Shift}
    ensures SameWord(a, b) ==> Token(a) == Token(b)
    ensures Token(a) != {} <==>
              SameWord(a, "ctrl") || SameWord(a, "alt") || SameWord(a, "super") || SameWord(a, "shift")
  {
    assert Lower("shift"[1]) != Lower("super"[1]);
  }

  /** `c` is that letter, small or capital. */
  predicate Is(c: char, small: char, capital: char) { c == small || c == capital }

  predicate IsCtrl(t: string) {
    |t| == 4 && Is(t[0], 'c', 'C') && Is(t[1], 't', 'T') && Is(t[2], 'r', 'R') && Is(t[3], 'l', 'L')
  }

  predicate IsAlt(t: string) { |t| == 3 && Is(t[0], 'a', 'A') && Is(t[1], 'l', 'L') && Is(t[2], 't', 'T') }

  predicate IsSuper(t: string) {
    && |t| == 5 && Is(t[0], 's', 'S') && Is(t[1], 'u', 'U')
    && Is(t[2], 'p', 'P') && Is(t[3], 'e', 'E') && Is(t[4], 'r', 'R')
  }

  predicate IsShift(t: string) {
    && |t| == 5 && Is(t[0], 's', 'S') && Is(t[1], 'h', 'H')
    && Is(t[2], 'i', 'I') && Is(t[3], 'f', 'F') && Is(t[4], 't', 'T')
  }

  lemma LowerIs(c: char)
    ensures forall small: char :: 'a' <= small <= 'z' ==>
              (Lower(c) == Lower(small) <==> Is(c, small, (small as int - 32) as char))
  {
  }

  lemma CtrlIs(t: string)
    ensures SameWord(t, "ctrl") <==> IsCtrl(t)
  {
    if |t| == 4 {
      LowerIs(t[0]);
      LowerIs(t[1]);
      LowerIs(t[2]);
      LowerIs(t[3]);
    }
  }

  lemma AltIs(t: string)
    ensures SameWord(t, "alt") <==> IsAlt(t)
  {
    if |t| == 3 {
      LowerIs(t[0]);
      LowerIs(t[1]);
      LowerIs(t[2]);
    }
  }

  lemma SuperIs(t: string)
    ensures SameWord(t, "super") <==> IsSuper(t)
  {
    if |t| == 5 {
      LowerIs(t[0]);
      LowerIs(t[1]);
      LowerIs(t[2]);
      LowerIs(t[3]);
      LowerIs(t[4]);
    }
  }

  lemma ShiftIs(t: string)
    ensures SameWord(t, "shift") <==> IsShift(t)
  {
    if |t| == 5 {
      LowerIs(t[0]);
      LowerIs(t[1]);
      LowerIs(t[2]);
      LowerIs(t[3]);
      LowerIs(t[4]);
    }
  }

  /** The words that give a bit, letter by letter; every other word gives none. */
  lemma TokenByLetters(t: string)
    ensures Token(t) == if IsCtrl(t) then {Ctrl} else if IsAlt(t) then {Alt} else if IsSuper(t) then {Logo}
                        else if IsShift(t) then {Shift} else {}
  {
    CtrlIs(t);
    AltIs(t);
    SuperIs(t);
    ShiftIs(t);
  }

  /** The text behind the string that starts at `s[0]`, and its closing quote if there is one. */
  function BehindToken(s: string): (r: string)
    requires s != []
    ensures |r| < |s|
  {
    var n := Until(s[1..], '"');
    s[1..][if n < |s| - 1 then n + 1 else n..]
  }

  /** The quoted strings of an array, from just behind its `[` to the first `]` outside them. */
  function Tokens(s: string): seq<string>
    decreases |s|
  {
    if s == [] || s[0] == ']' then []
    else if s[0] == '"' then
      var n := Until(s[1..], '"');
      [s[1..][..n]] + Tokens(BehindToken(s))
    else Tokens(s[1..])
  }

  /** Some `]` stands outside the strings. */
  predicate Closed(s: string)
    decreases |s|
  {
    s != [] && (s[0] == ']' || (if s[0] == '"' then Closed(BehindToken(s)) else Closed(s[1..])))
  }

  predicate EvenQuotes(s: string) {
    s == [] || (if s[0] == '"' then !EvenQuotes(s[1..]) else EvenQuotes(s[1..]))
  }

  /** The array is never closed and the text ends, outside a string, in whitespace or a comma.
      Skipping those, the parser steps over the terminator of the text. */
  predicate Runaway(s: string) {
    !Closed(s) && EvenQuotes(s) && s != [] && IsGap(s[|s| - 1])
  }

  function Bits(tokens: seq<string>): Mods {
    if tokens == [] then {} else Token(tokens[0]) + Bits(tokens[1..])
  }

  /** The text behind the first `[`, if there is one. */
  function Array(p: string): Option<string> {
    var n := Until(p, '[');
    if n < |p| then Some(p[n + 1..]) else None
  }

  function ArrayBits(p: string): Mods {
    match Array(p) case Some(s) => Bits(Tokens(s)) case None => {}
  }

  /** A bit is set exactly when some token has it. */
  lemma {:induction false} BitsIff(tokens: seq<string>, m: Modifier)
    ensures m in Bits(tokens) <==> exists k :: 0 <= k < |tokens| && m in Token(tokens[k])
  {
    if tokens != [] {
      BitsIff(tokens[1..], m);
      assert forall k :: 0 <= k < |tokens| - 1 ==> tokens[1..][k] == tokens[k + 1];
    }
  }

  /** The array begins behind the first `[`. */
  lemma ArrayIff(p: string, s: string)
    ensures Array(p) == Some(s) <==> exists w :: '[' !in w && p == w + ("[" + s)
  {
    var n := Until(p, '[');
    if Array(p) == Some(s) {
      assert '[' !in p[..n] && p == p[..n] + ("[" + s);
    }
    if w :| '[' !in w && p == w + ("[" + s) {
      UntilAfter(w, '[', s);
      assert p[|w| + 1..] == s;
    }
  }

  predicate RunawayArray(p: string) { Array(p).Some? && Runaway(Array(p).value) }

  predicate ClosedArray(p: string) { Array(p).Some? && Closed(Array(p).value) }

  /** Skipping whitespace and commas outside a string changes nothing. */
  lemma {:induction false} GapKeeps(s: string)
    ensures Tokens(AfterGap(s)) == Tokens(s) && Closed(AfterGap(s)) == Closed(s)
    ensures EvenQuotes(AfterGap(s)) == EvenQuotes(s)
    ensures s != [] && AfterGap(s) == [] ==> IsGap(s[|s| - 1])
    ensures AfterGap(s) != [] ==> AfterGap(s)[|AfterGap(s)| - 1] == s[|s| - 1]
  {
    if s != [] && IsGap(s[0]) {
      GapKeeps(s[1..]);
    }
  }

  lemma {:induction false} QuotesUntil(s: string)
    ensures var n := Until(s, '"'); EvenQuotes(s) == if n < |s| then !EvenQuotes(s[n + 1..]) else true
  {
    if s != [] && s[0] != '"' {
      QuotesUntil(s[1..]);
    }
  }

  /** `p`, reached from `s` outside a string, runs away if and only if `s` does. */
  ghost predicate SameEnd(p: string, s: string) {
    if p == [] then !Runaway(s)
    else s != [] && Closed(p) == Closed(s) && EvenQuotes(p) == EvenQuotes(s) && p[|p| - 1] == s[|s| - 1]
  }

  lemma GapSameEnd(p: string, s: string)
    requires p != [] && SameEnd(p, s)
    ensures if AfterGap(p) == [] then Runaway(s) else SameEnd(AfterGap(p), s)
  {
    GapKeeps(p);
  }

  lemma SkipSameEnd(p: string, s: string)
    requires p != [] && SameEnd(p, s) && !IsGap(p[0]) && p[0] != ']' && p[0] != '"'
    ensures SameEnd(p[1..], s)
  {
  }

  lemma TokenSameEnd(p: string, s: string)
    requires p != [] && SameEnd(p, s) && p[0] == '"'
    ensures SameEnd(BehindToken(p), s)
  {
    QuotesUntil(p[1..]);
  }

  /** The inner loop over one quoted token. */
  method ScanToken(s: string) returns (tok: string, p: string)
    requires s != [] && s[0] == '"'
    ensures tok == s[1..][..Until(s[1..], '"')] && p == BehindToken(s)
  {
    var n := 0;
    p := s[1..];
    while p != [] && p[0] != '"'
      invariant n + |p| == |s| - 1 && p == s[1..][n..]
      invariant Until(s[1..], '"') == n + Until(p, '"')
      decreases |p|
    {
      n, p := n + 1, p[1..];
    }
    tok := s[1..][..n];
    if p != [] {
      p := p[1..];
    }
  }

  /** One round of the loop: skip whitespace and commas, then take one character that starts no
      string or one quoted token.  Nothing is left when the terminator was reached, which the
      loop is about to step over. */
  method ParseRound(s: string, ghost all: string) returns (bits: Mods, next: string, over: bool)
    requires s != [] && s[0] != ']' && SameEnd(s, all)
    ensures |next| < |s|
    ensures over ==> Runaway(all)
    ensures !over ==> SameEnd(next, all) && Bits(Tokens(s)) == bits + Bits(Tokens(next))
  {
    GapKeeps(s);
    GapSameEnd(s, all);
    var p := SkipGap(s);
    if p == [] {
      return {}, p, true;
    }
    if p[0] == ']' {
      assert p != s;
      return {}, p, false;
    }
    if p[0] != '"' {
      SkipSameEnd(p, all);
      return {}, p[1..], false;
    }
    TokenSameEnd(p, all);
    var tok;
    tok, next := ScanToken(p);
    bits, over := Token(tok), false;
    assert Tokens(p)[0] == tok && Tokens(p)[1..] == Tokens(next);
  }

  /** The loop of `parse_modifiers_array` behind the `[`.  No result means that the cursor was
      moved past the terminator. */
  method ParseTokens(s: string) returns (r: Option<Mods>)
    ensures r == if Runaway(s) then None else Some(Bits(Tokens(s)))
  {
    var mods: Mods := {};
    var p := s;
    while p != [] && p[0] != ']'
      invariant mods + Bits(Tokens(p)) == Bits(Tokens(s)) && SameEnd(p, s)
      decreases |p|
    {
      var bits, next, over := ParseRound(p, s);
      if over {
        return None;
      }
      mods, p := mods + bits, next;
    }
    r := Some(mods);
  }

  /** `parse_modifiers_array`. */
  method ParseModifiersArray(text: string) returns (r: Option<Mods>)
    ensures r == if RunawayArray(text) then None else Some(ArrayBits(text))
  {
    var p := text;
    while p != [] && p[0] != '['
      invariant Array(p) == Array(text)
      decreases |p|
    {
      assert Until(p, '[') == 1 + Until(p[1..], '[');
      p := p[1..];
    }
    if p == [] {
      return Some({});
    }
    r := ParseTokens(p[1..]);
  }

  /** What stands behind the modifiers key and its colon. */
  function ModifiersField(s: string): Option<string> { Search(s, Quoted("modifiers"), Colon) }

  /** That is behind the leftmost occurrence of the key that no visited occurrence overlaps and
      that blanks and a colon follow; nothing without one. */
  lemma ModifiersFieldExact(s: string)
    ensures forall i: nat, v :: FoundAt(s, Quoted("modifiers"), Colon, i, v) ==> ModifiersField(s) == Some(v)
    ensures (forall i: nat, v :: !FoundAt(s, Quoted("modifiers"), Colon, i, v)) ==> ModifiersField(s) == None
  {
    SearchFinds(s, Quoted("modifiers"), Colon);
  }

  /** `extract_modifiers_field`.  The search stays inside the object, but the array is parsed in
      the whole text: `beyond` is what follows the object. */
  method ExtractModifiersField(obj: string, beyond: string) returns (r: Option<Mods>)
    ensures r == match ModifiersField(obj)
                 case None => Some({})
                 case Some(p) => if RunawayArray(p + beyond) then None else Some(ArrayBits(p + beyond))
  {
    var key := Quoted("modifiers");
    var p := obj;
    while p != []
      invariant Search(p, key, Colon) == ModifiersField(obj)
      decreases |p|
    {
      var hit := Find(p, key);
      if hit.None? {
        return Some({});
      }
      SearchSpaces(p[hit.value + |key|..], key, Colon);
      p := SkipSpaces(p[hit.value + |key|..]);
      if p == [] || p[0] != ':' {
        continue;
      }
      r := ParseModifiersArray(p[1..] + beyond);
      return;
    }
    r := Some({});
  }

  /** A text that breaks off behind a comma takes the parser past its end. */
  lemma CommaAtEndRunsAway()
    ensures RunawayArray("[,")
  {
    assert "[,"[1..] == "," && ","[1..] == "";
  }

  // ---------------------------------------------------------------------------------------
  // An array that is closed inside its object
  // ---------------------------------------------------------------------------------------

  lemma {:induction false} UntilAppended(s: string, t: string, c: char)
    requires Until(s, c) < |s|
    ensures Until(s + t, c) == Until(s, c)
  {
    assert (s + t)[0] == s[0];
    if s[0] != c {
      assert (s + t)[1..] == s[1..] + t;
      UntilAppended(s[1..], t, c);
    }
  }

  lemma {:induction false} ClosedAppended(s: string, t: string)
    requires Closed(s)
    ensures Closed(s + t) && Tokens(s + t) == Tokens(s)
    decreases |s|
  {
    assert (s + t)[0] == s[0] && (s + t)[1..] == s[1..] + t;
    if s[0] == '"' {
      assert Until(s[1..], '"') < |s| - 1;
      UntilAppended(s[1..], t, '"');
      assert BehindToken(s + t) == BehindToken(s) + t;
      assert (s + t)[1..][..Until(s[1..], '"')] == s[1..][..Until(s[1..], '"')];
      ClosedAppended(BehindToken(s), t);
    } else if s[0] != ']' {
      ClosedAppended(s[1..], t);
    }
  }

  /** Then the parser stays inside the object and the bits depend on the object alone. */
  lemma ClosedArrayIsLocal(p: string, beyond: string)
    requires ClosedArray(p)
    ensures !RunawayArray(p + beyond) && ArrayBits(p + beyond) == ArrayBits(p)
  {
    UntilAppended(p, beyond, '[');
    assert Array(p + beyond).value == Array(p).value + beyond;
    ClosedAppended(Array(p).value, beyond);
  }
}
