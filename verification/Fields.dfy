/** `extract_string_field`: the string value of a key inside one binding object.  The search for
    the key is shared with `extract_modifiers_field`. */
module Fields {
  import opened Prelude
  import opened Scanning

  function Quoted(key: string): string { "\"" + key + "\"" }

  /** In the text behind a key: the text from the first byte of its value on, if what follows is
      optional whitespace, a colon, optional whitespace and a quote. */
  function StringBehind(s: string): (r: Option<string>)
    ensures r.Some? ==> |r.value| < |s|
  {
    var a := AfterSpaces(s);
    if a != [] && a[0] == ':' then
      var b := AfterSpaces(a[1..]);
      if b != [] && b[0] == '"' then Some(b[1..]) else None
    else None
  }

  /** Length of the run of backslashes that ends just before `s[e]`. */
  function Backslashes(s: string, e: nat): nat
    requires e <= |s|
  {
    if e == 0 || s[e - 1] != '\\' then 0 else 1 + Backslashes(s, e - 1)
  }

  /** A quote closes a string unless it is escaped: an odd run of backslashes stands before it
      (section 7 of RFC 8259). */
  predicate Closes(s: string, e: nat) {
    e < |s| && s[e] == '"' && Backslashes(s, e) % 2 == 0
  }

  function FirstClose(s: string, from: nat): (r: Option<nat>)
    requires from <= |s|
    ensures r.Some? ==> r.value < |s|
    decreases |s| - from
  {
    if from == |s| then None else if Closes(s, from) then Some(from) else FirstClose(s, from + 1)
  }

  lemma FirstCloseIs(s: string, from: nat, e: nat)
    requires from <= e <= |s| && (e < |s| ==> Closes(s, e)) && forall i :: from <= i < e ==> !Closes(s, i)
    ensures FirstClose(s, from) == if e < |s| then Some(e) else None
    decreases e - from
  {
    if from < e {
      FirstCloseIs(s, from + 1, e);
    }
  }

  lemma {:induction false} FirstCloseFacts(s: string, from: nat)
    requires from <= |s|
    ensures match FirstClose(s, from)
            case Some(e) => from <= e && Closes(s, e) && forall i :: from <= i < e ==> !Closes(s, i)
            case None => forall i :: from <= i < |s| ==> !Closes(s, i)
    decreases |s| - from
  {
    if from < |s| && !Closes(s, from) {
      FirstCloseFacts(s, from + 1);
    }
  }

  /** The string value that starts here: the bytes up to the first closing quote, escapes left as
      they are; nothing if the string is not terminated. */
  function Value(s: string): Option<string> {
    match FirstClose(s, 0)
    case Some(e) => Some(s[..e])
    case None => None
  }

  /** A string is cut at the first quote with an even run of backslashes before it, and at no other. */
  lemma ValueIff(s: string, v: string)
    ensures Value(s) == Some(v) <==>
            |v| < |s| && s[..|v|] == v && Closes(s, |v|) && forall e :: 0 <= e < |v| ==> !Closes(s, e)
  {
    FirstCloseFacts(s, 0);
    if |v| < |s| && Closes(s, |v|) && forall e :: 0 <= e < |v| ==> !Closes(s, e) {
      FirstCloseIs(s, 0, |v|);
    }
  }

  /** Made of characters other than quotes and backslashes, and of pairs of a backslash and any
      character. */
  predicate Units(v: string) {
    v == "" ||
    (if v[0] == '\\' then |v| >= 2 && Units(v[2..]) else v[0] != '"' && Units(v[1..]))
  }

  /** Such text closes nothing, and a quote behind it does. */
  lemma {:induction false} UnitsCloseNothing(s: string, p: nat, n: nat)
    requires p <= n <= |s| && Backslashes(s, p) % 2 == 0 && Units(s[p..n])
    ensures Backslashes(s, n) % 2 == 0 && forall e :: p <= e < n ==> !Closes(s, e)
    decreases n - p
  {
    if p < n {
      var v := s[p..n];
      if s[p] == '\\' {
        assert v[2..] == s[p + 2..n];
        UnitsCloseNothing(s, p + 2, n);
      } else {
        assert v[1..] == s[p + 1..n];
        UnitsCloseNothing(s, p + 1, n);
      }
    }
  }

  lemma {:induction false} UnclosedAreUnits(s: string, p: nat, n: nat)
    requires p <= n < |s| && Backslashes(s, p) % 2 == 0 && Closes(s, n) && forall e :: p <= e < n ==> !Closes(s, e)
    ensures Units(s[p..n])
    decreases n - p
  {
    if p < n {
      var v := s[p..n];
      if s[p] == '\\' {
        assert v[2..] == s[p + 2..n];
        UnclosedAreUnits(s, p + 2, n);
      } else {
        assert !Closes(s, p) && v[1..] == s[p + 1..n];
        UnclosedAreUnits(s, p + 1, n);
      }
    }
  }

  /** A value is such text up to a quote: a quote or a backslash belongs to it when a backslash
      stands before it that is not itself the second of a pair. */
  lemma ValueGrammar(s: string, v: string)
    ensures Value(s) == Some(v) <==> Units(v) && exists rest :: s == v + ("\"" + rest)
  {
    ValueIff(s, v);
    var n := |v|;
    if Value(s) == Some(v) {
      UnclosedAreUnits(s, 0, n);
      assert s == v + ("\"" + s[n + 1..]) && s[0..n] == v;
    }
    if rest :| s == v + ("\"" + rest) {
      assert s[0..n] == v;
      if Units(v) {
        UnitsCloseNothing(s, 0, n);
      }
    }
  }

  /** What has to follow a quoted key: a colon and a string, or a colon. */
  datatype Follow = ColonAndQuote | Colon

  /** The text behind what has to follow, if it does. */
  function Behind(f: Follow, s: string): (r: Option<string>)
    ensures r.Some? ==> |r.value| < |s|
  {
    match f
    case ColonAndQuote => StringBehind(s)
    case Colon =>
      var a := AfterSpaces(s);
      if a != [] && a[0] == ':' then Some(a[1..]) else None
  }

  /** The same said by its shape: blanks, a colon, and for a string blanks and a quote. */
  ghost predicate Follows(f: Follow, s: string, v: string) {
    match f
    case ColonAndQuote =>
      exists w1, w2 :: Blank(w1) && Blank(w2) && s == w1 + (":" + (w2 + ("\"" + v)))
    case Colon =>
      exists w :: Blank(w) && s == w + (":" + v)
  }

  lemma ColonFollows(s: string, v: string)
    ensures Behind(Colon, s) == Some(v) <==> Follows(Colon, s, v)
  {
    var w := SpacesSplit(s);
    if Behind(Colon, s) == Some(v) {
      assert s == w + (":" + v);
    }
    if u :| Blank(u) && s == u + (":" + v) {
      SpacesDropped(u, ":" + v);
      assert (":" + v)[1..] == v;
    }
  }

  lemma StringFollows(s: string, v: string)
    requires Follows(ColonAndQuote, s, v)
    ensures StringBehind(s) == Some(v)
  {
    var w1, w2 :| Blank(w1) && Blank(w2) && s == w1 + (":" + (w2 + ("\"" + v)));
    var q := "\"" + v;
    SpacesDropped(w1, ":" + (w2 + q));
    assert (":" + (w2 + q))[1..] == w2 + q && q[1..] == v;
    SpacesDropped(w2, q);
  }

  lemma StringIsBehind(s: string, v: string)
    requires StringBehind(s) == Some(v)
    ensures Follows(ColonAndQuote, s, v)
  {
    var w1 := SpacesSplit(s);
    var rest := AfterSpaces(s)[1..];
    var w2 := SpacesSplit(rest);
    assert AfterSpaces(rest) == "\"" + v && AfterSpaces(s) == ":" + rest;
    assert s == w1 + (":" + (w2 + ("\"" + v)));
  }

  lemma BehindIff(f: Follow, s: string, v: string)
    ensures Behind(f, s) == Some(v) <==> Follows(f, s, v)
  {
    if f == Colon {
      ColonFollows(s, v);
    } else {
      if StringBehind(s) == Some(v) {
        StringIsBehind(s, v);
      }
      if Follows(f, s, v) {
        StringFollows(s, v);
      }
    }
  }

  ghost predicate NothingFollows(f: Follow, s: string) { forall v :: !Follows(f, s, v) }

  lemma NothingIff(f: Follow, s: string)
    ensures Behind(f, s).None? <==> NothingFollows(f, s)
  {
    forall v ensures Behind(f, s) == Some(v) <==> Follows(f, s, v) {
      BehindIff(f, s, v);
    }
  }

  /** The search of both field readers: find the pattern, and go on behind it if the right thing
      does not follow. */
  function Search(s: string, pat: string, f: Follow): Option<string>
    requires pat != ""
    decreases |s|
  {
    match Find(s, pat)
    case None => None
    case Some(i) =>
      match Behind(f, s[i + |pat|..])
      case Some(v) => Some(v)
      case None => Search(s[i + |pat|..], pat, f)
  }

  /** The value of `key` in `s`. */
  function Field(s: string, key: string): Option<string> {
    match Search(s, Quoted(key), ColonAndQuote)
    case None => None
    case Some(v) => Value(v)
  }

  // ---------------------------------------------------------------------------------------
  // Which occurrence the search takes
  // ---------------------------------------------------------------------------------------

  /** The occurrences that a search from left to right, continued behind each, comes to: those
      that no such occurrence before them overlaps. */
  ghost predicate Visited(s: string, pat: string, j: nat)
    decreases j
  {
    OccursAt(s, pat, j) && forall h: nat :: h < j < h + |pat| ==> !Visited(s, pat, h)
  }

  /** The first of them that the right thing follows. */
  ghost predicate FirstRead(s: string, pat: string, f: Follow, i: nat) {
    && Visited(s, pat, i) && Behind(f, s[i + |pat|..]).Some?
    && forall j: nat :: j < i && Visited(s, pat, j) ==> Behind(f, s[j + |pat|..]).None?
  }

  lemma TailOfTail(s: string, n: nat, m: nat)
    requires n + m <= |s|
    ensures s[n..][m..] == s[n + m..]
  {
  }

  lemma OccursShifted(s: string, pat: string, n: nat, i: nat)
    requires n <= |s|
    ensures OccursAt(s[n..], pat, i) <==> OccursAt(s, pat, n + i)
    ensures n + i + |pat| <= |s| ==> s[n..][i + |pat|..] == s[n + i + |pat|..]
  {
    if n + i + |pat| <= |s| {
      assert s[n..][i..i + |pat|] == s[n + i..n + i + |pat|];
    }
  }

  /** Of the text up to the end of the first occurrence, only that occurrence is visited. */
  lemma FirstVisited(s: string, pat: string, i: nat, j: nat)
    requires Find(s, pat) == Some(i) && j < i + |pat|
    ensures Visited(s, pat, j) <==> j == i
  {
    FindFacts(s, pat);
    if j == i {
      assert forall h: nat :: h < i ==> !OccursAt(s, pat, h);
    } else if i < j {
      FirstVisited(s, pat, i, i);
    }
  }

  /** Behind it the visited occurrences are those of the rest. */
  lemma {:induction false} VisitedBehind(s: string, pat: string, i: nat, n: nat, j: nat)
    requires Find(s, pat) == Some(i) && n == i + |pat|
    ensures Visited(s, pat, n + j) <==> Visited(s[n..], pat, j)
    decreases j
  {
    OccursShifted(s, pat, n, j);
    forall h: nat | h < j ensures Visited(s, pat, n + h) <==> Visited(s[n..], pat, h) {
      VisitedBehind(s, pat, i, n, h);
    }
    forall h: nat | h < n ensures Visited(s, pat, h) <==> h == i {
      FirstVisited(s, pat, i, h);
    }
    if Visited(s[n..], pat, j) {
      forall h: nat | h < n + j < h + |pat| ensures !Visited(s, pat, h) {
        if n <= h {
          assert !Visited(s[n..], pat, h - n);
        }
      }
    }
    if Visited(s, pat, n + j) {
      forall h: nat | h < j < h + |pat| ensures !Visited(s[n..], pat, h) {
        assert !Visited(s, pat, n + h);
      }
    }
  }

  lemma OccurrenceBehind(s: string, pat: string, i: nat, n: nat, j: nat)
    requires Find(s, pat) == Some(i) && n == i + |pat| && n <= j && Visited(s, pat, j)
    ensures Visited(s[n..], pat, j - n) && s[n..][j - n + |pat|..] == s[j + |pat|..]
  {
    VisitedBehind(s, pat, i, n, j - n);
    TailOfTail(s, n, j - n + |pat|);
  }

  lemma NoneReadBehind(s: string, pat: string, f: Follow, i: nat, n: nat, k: nat)
    requires pat != "" && Find(s, pat) == Some(i) && n == i + |pat| && Behind(f, s[n..]).None?
    requires forall j: nat :: j < k && Visited(s[n..], pat, j) ==> Behind(f, s[n..][j + |pat|..]).None?
    ensures forall j: nat :: j < n + k && Visited(s, pat, j) ==> Behind(f, s[j + |pat|..]).None?
  {
    forall j: nat | j < n + k && Visited(s, pat, j) ensures Behind(f, s[j + |pat|..]).None? {
      if j < n {
        FirstVisited(s, pat, i, j);
      } else {
        OccurrenceBehind(s, pat, i, n, j);
      }
    }
  }

  lemma FirstReadBehind(s: string, pat: string, f: Follow, i: nat, n: nat, k: nat)
    requires pat != "" && Find(s, pat) == Some(i) && n == i + |pat| && Behind(f, s[n..]).None?
    requires FirstRead(s[n..], pat, f, k)
    ensures FirstRead(s, pat, f, n + k) && s[n..][k + |pat|..] == s[n + k + |pat|..]
  {
    NoneReadBehind(s, pat, f, i, n, k);
    VisitedBehind(s, pat, i, n, k);
    OccursShifted(s, pat, n, k);
  }

  /** What the search returns comes from the first visited occurrence that the right thing follows. */
  lemma {:induction false} SearchFrom(s: string, pat: string, f: Follow)
    requires pat != ""
    ensures match Search(s, pat, f)
            case Some(v) => exists i: nat :: FirstRead(s, pat, f, i) && Behind(f, s[i + |pat|..]) == Some(v)
            case None => forall j: nat :: j <= |s| && Visited(s, pat, j) ==> Behind(f, s[j + |pat|..]).None?
    decreases |s|
  {
    FindFacts(s, pat);
    if Find(s, pat).Some? {
      var i := Find(s, pat).value;
      var n := i + |pat|;
      if Behind(f, s[n..]).Some? {
        FirstVisited(s, pat, i, i);
        assert FirstRead(s, pat, f, i);
      } else {
        SearchFrom(s[n..], pat, f);
        match Search(s[n..], pat, f)
        case Some(v) =>
          var k: nat :| FirstRead(s[n..], pat, f, k) && Behind(f, s[n..][k + |pat|..]) == Some(v);
          FirstReadBehind(s, pat, f, i, n, k);
        case None =>
          NoneReadBehind(s, pat, f, i, n, |s| + 1);
      }
    }
  }

  /** The search succeeds exactly when there is such an occurrence, and returns what stands there. */
  lemma SearchExact(s: string, pat: string, f: Follow)
    requires pat != ""
    ensures forall i: nat :: FirstRead(s, pat, f, i) ==> Search(s, pat, f) == Behind(f, s[i + |pat|..])
    ensures (forall i: nat :: !FirstRead(s, pat, f, i)) ==> Search(s, pat, f) == None
  {
    SearchFrom(s, pat, f);
    if Search(s, pat, f).Some? {
      var k: nat :| FirstRead(s, pat, f, k) && Behind(f, s[k + |pat|..]) == Search(s, pat, f);
      forall i: nat | FirstRead(s, pat, f, i) ensures i == k {
      }
    }
  }

  /** The leftmost visited occurrence with the right thing behind it is at `i`, and `v` is the text
      behind that. */
  ghost predicate FoundAt(s: string, pat: string, f: Follow, i: nat, v: string) {
    && Visited(s, pat, i) && Follows(f, s[i + |pat|..], v)
    && forall j: nat :: j < i && Visited(s, pat, j) ==> NothingFollows(f, s[j + |pat|..])
  }

  lemma FoundIsRead(s: string, pat: string, f: Follow, i: nat, v: string)
    ensures FoundAt(s, pat, f, i, v) <==> FirstRead(s, pat, f, i) && Behind(f, s[i + |pat|..]) == Some(v)
  {
    forall t ensures Behind(f, t).None? <==> NothingFollows(f, t) {
      NothingIff(f, t);
    }
    if Visited(s, pat, i) {
      BehindIff(f, s[i + |pat|..], v);
    }
  }

  /** The search returns what is found there, and nothing exactly when nothing is. */
  lemma SearchFinds(s: string, pat: string, f: Follow)
    requires pat != ""
    ensures forall i: nat, v :: FoundAt(s, pat, f, i, v) ==> Search(s, pat, f) == Some(v)
    ensures (forall i: nat, v :: !FoundAt(s, pat, f, i, v)) ==> Search(s, pat, f) == None
  {
    SearchExact(s, pat, f);
    forall i: nat, v
      ensures FoundAt(s, pat, f, i, v) <==> FirstRead(s, pat, f, i) && Behind(f, s[i + |pat|..]) == Some(v)
    {
      FoundIsRead(s, pat, f, i, v);
    }
    if i: nat :| FirstRead(s, pat, f, i) {
      assert FoundAt(s, pat, f, i, Behind(f, s[i + |pat|..]).value);
    }
  }

  /** A field is the string at the leftmost occurrence of its key that no visited occurrence
      overlaps and that blanks, a colon, blanks and a quote follow; nothing if that string is
      unterminated, and nothing if there is no such occurrence. */
  lemma FieldExact(s: string, key: string)
    ensures forall i: nat, v :: FoundAt(s, Quoted(key), ColonAndQuote, i, v) ==> Field(s, key) == Value(v)
    ensures (forall i: nat, v :: !FoundAt(s, Quoted(key), ColonAndQuote, i, v)) ==> Field(s, key) == None
  {
    SearchFinds(s, Quoted(key), ColonAndQuote);
  }

  // ---------------------------------------------------------------------------------------
  // The loops
  // ---------------------------------------------------------------------------------------

  lemma SearchAt(s: string, pat: string, f: Follow, n: nat)
    requires pat != "" && Find(s, pat).Some? && n == Find(s, pat).value + |pat|
    ensures Search(s, pat, f) == if Behind(f, s[n..]).Some? then Behind(f, s[n..]) else Search(s[n..], pat, f)
  {
  }

  lemma SameBehind(s: string, t: string, pat: string, f: Follow, n: nat)
    requires pat != "" && n <= |s| && t == s[n..]
    requires Find(s, pat) == match Find(t, pat) case None => None case Some(i) => Some(n + i)
    ensures Search(s, pat, f) == Search(t, pat, f)
  {
    if Find(t, pat).Some? {
      var m := Find(t, pat).value + |pat|;
      TailOfTail(s, n, m);
      SearchAt(s, pat, f, n + m);
      SearchAt(t, pat, f, m);
    }
  }

  /** Characters that do not start the pattern can be skipped before searching. */
  lemma SearchSkip(s: string, pat: string, f: Follow, n: nat)
    requires pat != "" && n <= |s| && forall i :: 0 <= i < n ==> s[i] != pat[0]
    ensures Search(s, pat, f) == Search(s[n..], pat, f)
  {
    FindSkip(s, pat, n);
    SameBehind(s, s[n..], pat, f, n);
  }

  lemma {:induction false} SearchSpaces(s: string, pat: string, f: Follow)
    requires pat != "" && !IsSpace(pat[0])
    ensures Search(s, pat, f) == Search(AfterSpaces(s), pat, f)
  {
    if s != [] && IsSpace(s[0]) {
      SearchSkip(s, pat, f, 1);
      SearchSpaces(s[1..], pat, f);
    }
  }

  /** The escape-skipping loop stops at the first closing quote and never runs past the end. */
  method ScanValue(s: string) returns (r: Option<string>)
    ensures r == Value(s)
  {
    var pos := 0;
    while pos < |s| && s[pos] != '"'
      invariant 0 <= pos <= |s|
      invariant forall e :: 0 <= e < pos ==> !Closes(s, e)
      invariant pos < |s| ==> Backslashes(s, pos) % 2 == 0
    {
      if s[pos] == '\\' {
        pos := pos + 1;
      }
      if pos < |s| {
        pos := pos + 1;
      }
    }
    FirstCloseIs(s, 0, pos);
    r := if pos >= |s| then None else Some(s[..pos]);
  }

  /** The checks behind an occurrence of the key.  `found` tells whether a string value follows,
      and then `p` starts with its first byte; otherwise `p` is where the checks stopped, which
      loses nothing for the search. */
  method BehindKey(s: string, ghost pat: string) returns (found: bool, p: string)
    requires pat != "" && pat[0] == '"'
    ensures |p| <= |s|
    ensures StringBehind(s) == if found then Some(p) else None
    ensures if found then Follows(ColonAndQuote, s, p) else NothingFollows(ColonAndQuote, s)
    ensures !found ==> Search(s, pat, ColonAndQuote) == Search(p, pat, ColonAndQuote)
  {
    NothingIff(ColonAndQuote, s);
    if StringBehind(s).Some? {
      BehindIff(ColonAndQuote, s, StringBehind(s).value);
    }
    p := SkipSpaces(s);
    SearchSpaces(s, pat, ColonAndQuote);
    if p == [] || p[0] != ':' {
      return false, p;
    }
    SearchSkip(p, pat, ColonAndQuote, 1);
    p := p[1..];
    SearchSpaces(p, pat, ColonAndQuote);
    p := SkipSpaces(p);
    if p == [] || p[0] != '"' {
      return false, p;
    }
    found, p := true, p[1..];
  }

  /** `extract_string_field` on the text between `obj_start` and `obj_end`; `memory` says whether
      there is memory for a copy of the value. */
  method ExtractStringField(obj: string, key: string, memory: bool) returns (r: Option<string>)
    ensures r == if |Quoted(key)| >= 64 || !memory then None else Field(obj, key)
  {
    var pattern := Quoted(key);
    if |pattern| >= 64 {
      return None;
    }
    var p := obj;
    while p != []
      invariant Search(obj, pattern, ColonAndQuote) == Search(p, pattern, ColonAndQuote)
      decreases |p|
    {
      var hit := Find(p, pattern);
      if hit.None? {
        return None;
      }
      var found, next := BehindKey(p[hit.value + |pattern|..], pattern);
      if found {
        r := ScanValue(next);
        if !memory {
          r := None;
        }
        return;
      }
      p := next;
    }
    r := None;
  }
}
