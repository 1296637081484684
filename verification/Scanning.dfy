/** String scanning as the configuration parser does it.  A `char*` into the text is the rest of
    the text from there on; the terminating NUL is the end of the string. */
module Scanning {
  import opened Prelude

  predicate IsSpace(c: char) { c == ' ' || c == '\t' || c == '\n' || c == '\r' }

  predicate IsGap(c: char) { IsSpace(c) || c == ',' }

  /** The text behind leading whitespace. */
  function AfterSpaces(s: string): (r: string)
    ensures |r| <= |s|
  {
    if s == [] || !IsSpace(s[0]) then s else AfterSpaces(s[1..])
  }

  /** The text behind leading whitespace and commas. */
  function AfterGap(s: string): (r: string)
    ensures |r| <= |s| && (r == [] || !IsGap(r[0])) && (|r| == |s| ==> r == s)
  {
    if s == [] || !IsGap(s[0]) then s else AfterGap(s[1..])
  }

  /** Nothing but spaces, tabs, line feeds and carriage returns. */
  predicate Blank(w: string) { forall c <- w :: c == ' ' || c == '\t' || c == '\n' || c == '\r' }

  predicate StartsBlank(s: string) { s != "" && (s[0] == ' ' || s[0] == '\t' || s[0] == '\n' || s[0] == '\r') }

  lemma {:induction false} SpacesDropped(w: string, r: string)
    requires Blank(w) && !StartsBlank(r)
    ensures AfterSpaces(w + r) == r
  {
    if w == "" {
      assert w + r == r;
    } else {
      assert w[0] in w && (w + r)[1..] == w[1..] + r && forall c <- w[1..] :: c in w;
      SpacesDropped(w[1..], r);
    }
  }

  /** Leading whitespace and what follows it. */
  lemma {:induction false} SpacesSplit(s: string) returns (w: string)
    ensures Blank(w) && s == w + AfterSpaces(s) && !StartsBlank(AfterSpaces(s))
  {
    if s == "" || !IsSpace(s[0]) {
      w := "";
    } else {
      w := SpacesSplit(s[1..]);
      assert s == [s[0]] + s[1..];
      w := [s[0]] + w;
    }
  }

  /** Nothing but blanks and commas. */
  predicate OnlyGap(w: string) { forall c <- w :: c == ' ' || c == '\t' || c == '\n' || c == '\r' || c == ',' }

  predicate StartsGap(s: string) { StartsBlank(s) || (s != "" && s[0] == ',') }

  lemma {:induction false} GapDropped(g: string, s: string)
    requires OnlyGap(g)
    ensures AfterGap(g + s) == AfterGap(s)
  {
    if g == "" {
      assert g + s == s;
    } else {
      assert g[0] in g && (g + s)[1..] == g[1..] + s && forall c <- g[1..] :: c in g;
      GapDropped(g[1..], s);
    }
  }

  /** Leading blanks and commas are what is skipped. */
  lemma {:induction false} GapSplit(s: string) returns (w: string)
    ensures OnlyGap(w) && s == w + AfterGap(s) && !StartsGap(AfterGap(s))
  {
    if s == "" || !IsGap(s[0]) {
      w := "";
    } else {
      w := GapSplit(s[1..]);
      assert s == [s[0]] + s[1..];
      w := [s[0]] + w;
    }
  }

  /** How many characters precede the first `c`; all of them if there is none. */
  function Until(s: string, c: char): (n: nat)
    ensures n <= |s| && (forall i :: 0 <= i < n ==> s[i] != c) && (n < |s| ==> s[n] == c)
  {
    if s == [] || s[0] == c then 0 else 1 + Until(s[1..], c)
  }

  lemma {:induction false} UntilAfter(w: string, c: char, rest: string)
    requires c !in w
    ensures Until(w + ([c] + rest), c) == |w|
  {
    if w != "" {
      assert (w + ([c] + rest))[1..] == w[1..] + ([c] + rest);
      UntilAfter(w[1..], c, rest);
    }
  }

  lemma {:induction false} NoneUntil(s: string, c: char)
    requires c !in s
    ensures Until(s, c) == |s|
  {
    if s != "" {
      assert s[0] in s && c !in s[1..];
      NoneUntil(s[1..], c);
    }
  }

  predicate OccursAt(s: string, pat: string, i: nat) {
    i + |pat| <= |s| && s[i..i + |pat|] == pat
  }

  function FindFrom(s: string, pat: string, from: nat): (r: Option<nat>)
    ensures r.Some? ==> from <= r.value && OccursAt(s, pat, r.value)
                        && forall i :: from <= i < r.value ==> !OccursAt(s, pat, i)
    ensures r.None? ==> forall i: nat :: from <= i ==> !OccursAt(s, pat, i)
    decreases |s| - from
  {
    if from + |pat| > |s| then None
    else if OccursAt(s, pat, from) then Some(from)
    else if from < |s| then FindFrom(s, pat, from + 1) else None
  }

  /** `memmem` and `strstr`: the leftmost occurrence. */
  function Find(s: string, pat: string): (r: Option<nat>)
    ensures r.Some? ==> r.value + |pat| <= |s|
  {
    FindFrom(s, pat, 0)
  }

  /** What makes an offset the result of `Find`. */
  lemma FindIs(s: string, pat: string, i: nat)
    requires OccursAt(s, pat, i) && forall j :: 0 <= j < i ==> !OccursAt(s, pat, j)
    ensures Find(s, pat) == Some(i)
  {
  }

  lemma FindNone(s: string, pat: string)
    requires forall i: nat :: !OccursAt(s, pat, i)
    ensures Find(s, pat) == None
  {
  }

  lemma FindFacts(s: string, pat: string)
    ensures Find(s, pat).Some? ==> OccursAt(s, pat, Find(s, pat).value)
                                   && forall i :: 0 <= i < Find(s, pat).value ==> !OccursAt(s, pat, i)
    ensures Find(s, pat).None? ==> forall i: nat :: !OccursAt(s, pat, i)
  {
  }

  lemma HeadMismatch(s: string, pat: string)
    requires s != [] && pat != [] && s[0] != pat[0]
    ensures !OccursAt(s, pat, 0)
  {
    assert |pat| <= |s| ==> s[0..|pat|][0] == s[0];
  }

  lemma FindNext(s: string, pat: string)
    requires s != [] && !OccursAt(s, pat, 0)
    ensures Find(s, pat) == match Find(s[1..], pat) case None => None case Some(i) => Some(i + 1)
  {
    forall i: nat ensures OccursAt(s[1..], pat, i) <==> OccursAt(s, pat, i + 1) {
      if i + 1 + |pat| <= |s| {
        assert s[1..][i..i + |pat|] == s[i + 1..i + 1 + |pat|];
      }
    }
    FindFacts(s[1..], pat);
    match Find(s[1..], pat)
    case Some(i) =>
      forall j | 0 <= j < i + 1 ensures !OccursAt(s, pat, j) {
        if j > 0 {
          assert !OccursAt(s[1..], pat, j - 1);
        }
      }
      FindIs(s, pat, i + 1);
    case None =>
      forall j: nat ensures !OccursAt(s, pat, j) {
        if j > 0 {
          assert !OccursAt(s[1..], pat, j - 1);
        }
      }
      FindNone(s, pat);
  }

  method SkipSpaces(s: string) returns (p: string)
    ensures p == AfterSpaces(s)
  {
    p := s;
    while |p| > 0 && IsSpace(p[0])
      invariant AfterSpaces(p) == AfterSpaces(s)
      decreases |p|
    {
      p := p[1..];
    }
  }

  method SkipGap(s: string) returns (p: string)
    ensures p == AfterGap(s)
  {
    p := s;
    while |p| > 0 && IsGap(p[0])
      invariant AfterGap(p) == AfterGap(s)
      decreases |p|
    {
      p := p[1..];
    }
  }

  /** Skipping `n` characters none of which starts the pattern loses no occurrence. */
  lemma FindSkip(s: string, pat: string, n: nat)
    requires n <= |s| && pat != [] && forall i :: 0 <= i < n ==> s[i] != pat[0]
    ensures Find(s, pat) == match Find(s[n..], pat) case None => None case Some(i) => Some(n + i)
  {
    forall i: nat ensures OccursAt(s[n..], pat, i) <==> OccursAt(s, pat, n + i) {
      if i + |pat| <= |s| - n {
        assert s[n..][i..i + |pat|] == s[n + i..n + i + |pat|];
      }
    }
    forall i: nat | OccursAt(s, pat, i) ensures i >= n && OccursAt(s[n..], pat, i - n) {
      assert s[i] == s[i..i + |pat|][0];
    }
    FindFacts(s[n..], pat);
    match Find(s[n..], pat)
    case Some(i) => FindIs(s, pat, n + i);
    case None => FindNone(s, pat);
  }
}
