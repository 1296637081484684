/** What loading a configuration does to the registry, for any text at all. */
module KeybindsLoading {
  import opened Prelude
  import opened Scanning
  import opened Modifiers
  import opened Keybinds

  /** An object of the bindings array and the whitespace and commas in front of it. */
  datatype Chunk = Chunk(gap: string, obj: string)

  function LeadingGap(s: string): string {
    if s == [] || !IsGap(s[0]) then "" else [s[0]] + LeadingGap(s[1..])
  }

  /** Cutting the text into objects, whatever they contain. */
  function Chunks(s: string): seq<Chunk>
    decreases |s|
  {
    var p := AfterGap(s);
    if p == [] || p[0] != '{' then []
    else [Chunk(LeadingGap(s), p[..ObjectEnd(p)])] + Chunks(p[ObjectEnd(p)..])
  }

  /** What follows the last object. */
  function Remainder(s: string): string
    decreases |s|
  {
    var p := AfterGap(s);
    if p == [] || p[0] != '{' then s else Remainder(p[ObjectEnd(p)..])
  }

  function Text(cs: seq<Chunk>): string {
    if cs == [] then "" else cs[0].gap + cs[0].obj + Text(cs[1..])
  }

  /** An object begins with a brace, and its braces balance at its end and not before. */
  ghost predicate WholeObject(obj: string) {
    obj != [] && obj[0] == '{' && Depth(obj) == 0 && forall m :: 0 < m < |obj| ==> Depth(obj[..m]) > 0
  }

  /** An object that begins with a brace that is never closed. */
  ghost predicate OpenObject(obj: string) {
    obj != [] && obj[0] == '{' && forall m :: 0 < m <= |obj| ==> Depth(obj[..m]) > 0
  }

  lemma {:induction false} LeadingGapIs(s: string)
    ensures s == LeadingGap(s) + AfterGap(s) && OnlyGap(LeadingGap(s))
  {
    if s != [] && IsGap(s[0]) {
      LeadingGapIs(s[1..]);
    }
  }

  lemma WholeOrOpenObject(p: string)
    requires p != [] && p[0] == '{' && IsObjectEnd(p, |p|)
    ensures WholeObject(p) || OpenObject(p)
  {
    var front, last := p[..|p| - 1], p[|p| - 1];
    assert p == front + [last] && p[..|p|] == p;
    DepthSnoc(front, last);
    assert |p| == 1 ==> front == [];
  }

  lemma CutObject(p: string)
    requires p != [] && p[0] == '{'
    ensures WholeObject(p[..ObjectEnd(p)]) || (ObjectEnd(p) == |p| && OpenObject(p))
  {
    var n := ObjectEnd(p);
    ObjectEndFacts(p);
    if n == |p| {
      assert p[..n] == p;
      WholeOrOpenObject(p);
    } else {
      assert forall m :: 0 < m < n ==> p[..n][..m] == p[..m];
    }
  }

  lemma TextOneMore(s: string, c: Chunk, rest: string)
    requires s == c.gap + (c.obj + rest)
    ensures s == Text([c] + Chunks(rest)) + Remainder(rest) <==> rest == Text(Chunks(rest)) + Remainder(rest)
  {
    var cs := [c] + Chunks(rest);
    assert cs[1..] == Chunks(rest);
    var front := c.gap + c.obj;
    assert s == front + rest;
    assert Text(cs) + Remainder(rest) == front + (Text(Chunks(rest)) + Remainder(rest));
    assert s[|front|..] == rest;
    assert (front + (Text(Chunks(rest)) + Remainder(rest)))[|front|..] == Text(Chunks(rest)) + Remainder(rest);
  }

  lemma {:induction false} TextCovered(s: string)
    ensures s == Text(Chunks(s)) + Remainder(s)
    decreases |s|
  {
    LeadingGapIs(s);
    var p := AfterGap(s);
    if p != [] && p[0] == '{' {
      var n := ObjectEnd(p);
      var c := Chunk(LeadingGap(s), p[..n]);
      assert Chunks(s) == [c] + Chunks(p[n..]) && Remainder(s) == Remainder(p[n..]);
      TextCovered(p[n..]);
      assert p == p[..n] + p[n..];
      TextOneMore(s, c, p[n..]);
    }
  }

  lemma {:induction false} GapsAreGaps(s: string)
    ensures forall c <- Chunks(s) :: OnlyGap(c.gap)
    decreases |s|
  {
    var p := AfterGap(s);
    if p != [] && p[0] == '{' {
      LeadingGapIs(s);
      GapsAreGaps(p[ObjectEnd(p)..]);
    }
  }

  /** Each object is whole, except that the last may stay open to the end of the text. */
  ghost predicate WholeOrOpen(cs: seq<Chunk>, rest: string) {
    forall i :: 0 <= i < |cs| ==>
      WholeObject(cs[i].obj) || (i == |cs| - 1 && rest == [] && OpenObject(cs[i].obj))
  }

  lemma {:induction false} ObjectsAreWhole(s: string)
    ensures WholeOrOpen(Chunks(s), Remainder(s))
    decreases |s|
  {
    var p := AfterGap(s);
    if p != [] && p[0] == '{' {
      var n := ObjectEnd(p);
      CutObject(p);
      ObjectsAreWhole(p[n..]);
      if n == |p| {
        assert p[..n] == p && p[n..] == [] && Chunks([]) == [] && Remainder([]) == [];
      }
    }
  }

  /** What comes first behind blanks and commas, if anything, is no object. */
  ghost predicate NoObjectFirst(rest: string) {
    exists w, r :: OnlyGap(w) && rest == w + r && !StartsGap(r) && (r == "" || r[0] != '{')
  }

  lemma {:induction false} NoObjectLeft(s: string)
    ensures NoObjectFirst(Remainder(s))
    decreases |s|
  {
    var p := AfterGap(s);
    if p != [] && p[0] == '{' {
      NoObjectLeft(p[ObjectEnd(p)..]);
    } else {
      var w := GapSplit(s);
      assert s == w + p;
    }
  }

  /** The objects are disjoint, in order, and separated by whitespace and commas alone; no object is
      left behind the last; and each is whole, except that one whose braces stay open to the end
      of the text extends to that end. */
  lemma ObjectsCoverText(s: string)
    ensures s == Text(Chunks(s)) + Remainder(s)
    ensures forall c <- Chunks(s) :: OnlyGap(c.gap)
    ensures WholeOrOpen(Chunks(s), Remainder(s))
    ensures NoObjectFirst(Remainder(s))
  {
    TextCovered(s);
    GapsAreGaps(s);
    ObjectsAreWhole(s);
    NoObjectLeft(s);
  }

  // ---------------------------------------------------------------------------------------
  // What is loaded
  // ---------------------------------------------------------------------------------------

  /** What follows the `k`th object. */
  function Beyond(cs: seq<Chunk>, rest: string, k: nat): string
    requires k < |cs|
  {
    Text(cs[k + 1..]) + rest
  }

  function ParseAt(cs: seq<Chunk>, rest: string, k: nat, host: Host, from: nat): Parsed
    requires k < |cs|
  {
    ParseObject(cs[k].obj, Beyond(cs, rest, k), host, from + k)
  }

  /** The text ends properly behind the last object: with the array's bracket or the end. */
  ghost predicate Ended(rest: string) {
    exists w, r :: OnlyGap(w) && rest == w + r && (r == "" || r[0] == ']')
  }

  lemma EndedIs(rest: string)
    ensures Ended(rest) <==> AfterGap(rest) == [] || AfterGap(rest)[0] == ']'
  {
    var w := GapSplit(rest);
    if AfterGap(rest) == [] || AfterGap(rest)[0] == ']' {
      assert rest == w + AfterGap(rest);
    }
    if u, r :| OnlyGap(u) && rest == u + r && (r == "" || r[0] == ']') {
      GapDropped(u, r);
    }
  }

  /** Loading registers the bindings of the leading objects, in order, up to the first that yields
      none.  What that one is decides the status; if there is none, the end of the array does.
      `from` is the number of the first object. */
  ghost predicate LoadsExactly(l: Loaded, cs: seq<Chunk>, rest: string, host: Host, from: nat) {
    var n := |l.added|;
    && n <= |cs|
    && (forall i :: 0 <= i < n ==> ParseAt(cs, rest, i, host, from) == Parsed(l.added[i]))
    && (n < |cs| ==> !ParseAt(cs, rest, n, host, from).Parsed?)
    && l.status == if n == |cs| then (if Ended(rest) then Success else Failure)
                   else if ParseAt(cs, rest, n, host, from).Overrun? then Overran else Failure
  }

  lemma ParseBehind(c: Chunk, cs: seq<Chunk>, rest: string, i: nat, host: Host, from: nat)
    requires i < |cs|
    ensures ParseAt([c] + cs, rest, i + 1, host, from) == ParseAt(cs, rest, i, host, from + 1)
  {
    assert ([c] + cs)[i + 2..] == cs[i + 1..];
  }

  lemma ExactlyOneMore(b: Binding, l: Loaded, c: Chunk, cs: seq<Chunk>, rest: string, host: Host, from: nat)
    requires LoadsExactly(l, cs, rest, host, from + 1) && ParseAt([c] + cs, rest, 0, host, from) == Parsed(b)
    ensures LoadsExactly(After([b], l), [c] + cs, rest, host, from)
  {
    var n := |l.added|;
    forall i | 0 <= i < n + 1 ensures ParseAt([c] + cs, rest, i, host, from) == Parsed(([b] + l.added)[i]) {
      if i > 0 {
        ParseBehind(c, cs, rest, i - 1, host, from);
      }
    }
    if n < |cs| {
      ParseBehind(c, cs, rest, n, host, from);
    }
  }

  /** For every text. */
  lemma {:induction false} LoadingExact(s: string, host: Host, from: nat)
    ensures LoadsExactly(LoadObjects(s, host, from), Chunks(s), Remainder(s), host, from)
    decreases |s|
  {
    var p := AfterGap(s);
    EndedIs(s);
    if p != [] && p[0] == '{' {
      var n := ObjectEnd(p);
      var c := Chunk(LeadingGap(s), p[..n]);
      var cs, rest := Chunks(p[n..]), Remainder(p[n..]);
      assert Chunks(s) == [c] + cs && ([c] + cs)[1..] == cs;
      TextCovered(p[n..]);
      assert ParseAt([c] + cs, rest, 0, host, from) == ParseObject(p[..n], p[n..], host, from);
      LoadingExact(p[n..], host, from + 1);
      match ParseObject(p[..n], p[n..], host, from)
      case Parsed(b) => ExactlyOneMore(b, LoadObjects(p[n..], host, from + 1), c, cs, rest, host, from);
      case _ =>
    }
  }

  // ---------------------------------------------------------------------------------------
  // When the modifiers parser leaves the text
  // ---------------------------------------------------------------------------------------

  /** The modifiers value of the object runs away in the rest of the text. */
  predicate RunsAway(obj: string, beyond: string) {
    ModifiersField(obj).Some? && RunawayArray(ModifiersField(obj).value + beyond)
  }

  /** It does so for some object that every earlier one lets the loader come to. */
  ghost predicate SomeRunsAway(s: string, host: Host, from: nat) {
    var cs, rest := Chunks(s), Remainder(s);
    exists k :: 0 <= k < |cs| && RunsAway(cs[k].obj, Beyond(cs, rest, k))
                && forall i :: 0 <= i < k ==> ParseAt(cs, rest, i, host, from).Parsed?
  }

  lemma OverrunAt(cs: seq<Chunk>, rest: string, k: nat, host: Host, from: nat)
    requires k < |cs|
    ensures ParseAt(cs, rest, k, host, from).Overrun? <==> RunsAway(cs[k].obj, Beyond(cs, rest, k))
  {
  }

  lemma OverrunIff(s: string, host: Host, from: nat)
    ensures LoadObjects(s, host, from).status == Overran <==> SomeRunsAway(s, host, from)
  {
    var cs, rest, n := Chunks(s), Remainder(s), |LoadObjects(s, host, from).added|;
    LoadingExact(s, host, from);
    if n < |cs| {
      OverrunAt(cs, rest, n, host, from);
    }
    if SomeRunsAway(s, host, from) {
      var k :| 0 <= k < |cs| && RunsAway(cs[k].obj, Beyond(cs, rest, k))
               && forall i :: 0 <= i < k ==> ParseAt(cs, rest, i, host, from).Parsed?;
      OverrunAt(cs, rest, k, host, from);
      assert n == k;
    }
  }

  /** The bindings array of a file that is read at all. */
  function ArrayOf(file: File): Option<string> {
    if file.Contents? && 0 < |file.bytes| <= MAX_SIZE
    then BindingsArray(file.bytes[..Until(file.bytes, '\0')])
    else None
  }

  lemma LoadingArray(file: File, host: Host)
    ensures Load(file, host) ==
            match ArrayOf(file)
            case None => Loaded(if file.Missing? then Success else Failure, [])
            case Some(s) => LoadObjects(s, host, 0)
  {
  }

  /** Loading a file leaves the text exactly when an object of its array makes it do so. */
  lemma OverrunFileIff(file: File, host: Host)
    ensures Load(file, host).status == Overran <==>
            ArrayOf(file).Some? && SomeRunsAway(ArrayOf(file).value, host, 0)
  {
    LoadingArray(file, host);
    if ArrayOf(file).Some? {
      OverrunIff(ArrayOf(file).value, host, 0);
    }
  }

  // ---------------------------------------------------------------------------------------
  // Arrays that are closed inside their objects
  // ---------------------------------------------------------------------------------------

  /** The modifiers array of the object, if it has one, is closed inside it. */
  predicate SelfContained(obj: string) {
    ModifiersField(obj).Some? ==> ClosedArray(ModifiersField(obj).value)
  }

  lemma SelfContainedParse(obj: string, beyond: string, host: Host, k: nat)
    requires SelfContained(obj)
    ensures ParseObject(obj, beyond, host, k) == ParseObject(obj, "", host, k)
    ensures !ParseObject(obj, beyond, host, k).Overrun?
  {
    if ModifiersField(obj).Some? {
      var p := ModifiersField(obj).value;
      ClosedArrayIsLocal(p, beyond);
      ClosedArrayIsLocal(p, "");
    }
  }

  /** Then each object counts for itself, and the only ways to fail are a malformed one, lack of
      memory for one, or a missing end of the array. */
  ghost predicate LoadsPrefix(l: Loaded, cs: seq<Chunk>, rest: string, host: Host, from: nat) {
    var n := |l.added|;
    && n <= |cs|
    && (forall i :: 0 <= i < n ==> ParseObject(cs[i].obj, "", host, from + i) == Parsed(l.added[i]))
    && (n < |cs| ==> ParseObject(cs[n].obj, "", host, from + n) in {Malformed, NoMemory})
    && l.status == if n == |cs| && Ended(rest) then Success else Failure
  }

  lemma ParseAtIs(cs: seq<Chunk>, rest: string, i: nat, host: Host, from: nat)
    requires i < |cs|
    ensures ParseAt(cs, rest, i, host, from) == ParseObject(cs[i].obj, Beyond(cs, rest, i), host, from + i)
  {
  }

  lemma LocalParse(cs: seq<Chunk>, rest: string, i: nat, host: Host, from: nat)
    requires i < |cs| && SelfContained(cs[i].obj)
    ensures ParseAt(cs, rest, i, host, from) == ParseObject(cs[i].obj, "", host, from + i)
    ensures !ParseAt(cs, rest, i, host, from).Overrun?
  {
    ParseAtIs(cs, rest, i, host, from);
    SelfContainedParse(cs[i].obj, Beyond(cs, rest, i), host, from + i);
  }

  lemma ExactIsPrefix(l: Loaded, cs: seq<Chunk>, rest: string, host: Host, from: nat)
    requires LoadsExactly(l, cs, rest, host, from) && forall i :: 0 <= i < |cs| ==> SelfContained(cs[i].obj)
    ensures LoadsPrefix(l, cs, rest, host, from)
  {
    var n := |l.added|;
    forall i | 0 <= i < n ensures ParseObject(cs[i].obj, "", host, from + i) == Parsed(l.added[i]) {
      LocalParse(cs, rest, i, host, from);
    }
    if n < |cs| {
      LocalParse(cs, rest, n, host, from);
    }
  }

  lemma LoadingIsPrefix(s: string, host: Host, from: nat)
    requires forall c <- Chunks(s) :: SelfContained(c.obj)
    ensures LoadsPrefix(LoadObjects(s, host, from), Chunks(s), Remainder(s), host, from)
  {
    LoadingExact(s, host, from);
    forall i | 0 <= i < |Chunks(s)| ensures SelfContained(Chunks(s)[i].obj) {
      assert Chunks(s)[i] in Chunks(s);
    }
    ExactIsPrefix(LoadObjects(s, host, from), Chunks(s), Remainder(s), host, from);
  }

  /** For a whole file with a bindings array. */
  lemma LoadingFile(file: File, host: Host)
    requires ArrayOf(file).Some? ==> forall c <- Chunks(ArrayOf(file).value) :: SelfContained(c.obj)
    ensures match ArrayOf(file)
            case None => Load(file, host) == Loaded(if file.Missing? then Success else Failure, [])
            case Some(s) => LoadsPrefix(Load(file, host), Chunks(s), Remainder(s), host, 0)
  {
    LoadingArray(file, host);
    if ArrayOf(file).Some? {
      LoadingIsPrefix(ArrayOf(file).value, host, 0);
    }
  }

  // ---------------------------------------------------------------------------------------
  // Which binding a key runs afterwards
  // ---------------------------------------------------------------------------------------

  /** Whatever is appended, a combination that was bound keeps running the same binding. */
  lemma DispatchIsStable(bs: seq<Binding>, added: seq<Binding>, mods: Mods, sym: Keysym)
    requires Bound(bs, mods, sym)
    ensures Lookup(bs + added, mods, sym) == Lookup(bs, mods, sym)
  {
    LookupFromIs(bs + added, mods, sym, 0, Lookup(bs, mods, sym).value);
  }

  /** A configured binding takes effect exactly when its combination was not bound before it: the
      file extends the bindings in force and cannot override one. */
  lemma ConfiguredBindingWorksIff(bs: seq<Binding>, added: seq<Binding>, i: nat)
    requires i < |added|
    ensures Lookup(bs + added, added[i].modifiers, added[i].keysym) == Some(|bs| + i)
            <==> !Bound(bs + added[..i], added[i].modifiers, added[i].keysym)
  {
    var all, b, k := bs + added, added[i], |bs| + i;
    assert all[..k] == bs + added[..i] && all[k] == b;
    if !Bound(all[..k], b.modifiers, b.keysym) {
      assert forall j :: 0 <= j < k ==> all[..k][j] == all[j];
      LookupFromIs(all, b.modifiers, b.keysym, 0, k);
    }
  }

  /** After initialisation with any file on which the parser stays in the text, each default
      combination runs its default action. */
  lemma DefaultsSurvive(file: File, host: Host, i: nat)
    requires i < |DEFAULTS| && Load(file, host).status != Overran
    ensures Lookup(DEFAULTS + Load(file, host).added, DEFAULTS[i].modifiers, DEFAULTS[i].keysym) == Some(i)
  {
    var d := DEFAULTS[i];
    LookupFromIs(DEFAULTS, d.modifiers, d.keysym, 0, i);
    DispatchIsStable(DEFAULTS, Load(file, host).added, d.modifiers, d.keysym);
  }
}
