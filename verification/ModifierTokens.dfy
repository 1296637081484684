/** Which strings of a modifiers array are its tokens, and where the array ends, said by counting
    quotes. */
module ModifierTokens {
  import opened Scanning
  import opened Modifiers

  /** How many quotes there are. */
  function Quotes(s: string): nat {
    if s == [] then 0 else (if s[0] == '"' then 1 else 0) + Quotes(s[1..])
  }

  lemma {:induction false} QuotesConcat(a: string, b: string)
    ensures Quotes(a + b) == Quotes(a) + Quotes(b)
  {
    if a == [] {
      assert a + b == b;
    } else {
      assert (a + b)[1..] == a[1..] + b;
      QuotesConcat(a[1..], b);
    }
  }

  /** A `]` behind an even number of quotes. */
  predicate UnquotedBracket(s: string, e: nat) {
    e < |s| && s[e] == ']' && Quotes(s[..e]) % 2 == 0
  }

  /** The first of them, or the end of the text. */
  ghost predicate ArrayEnd(s: string, e: nat) {
    e <= |s| && (e < |s| ==> UnquotedBracket(s, e)) && forall i :: 0 <= i < e ==> !UnquotedBracket(s, i)
  }

  lemma QuotesFrom(s: string, m: nat, i: nat)
    requires m + i <= |s|
    ensures Quotes(s[..m + i]) == Quotes(s[..m]) + Quotes(s[m..][..i])
  {
    assert s[..m + i] == s[..m] + s[m..][..i];
    QuotesConcat(s[..m], s[m..][..i]);
  }

  lemma {:induction false} EvenQuotesCounts(s: string)
    ensures EvenQuotes(s) <==> Quotes(s) % 2 == 0
  {
    if s != [] {
      EvenQuotesCounts(s[1..]);
    }
  }

  lemma {:induction false} ArrayEnds(s: string, from: nat) returns (e: nat)
    requires from <= |s| && forall i :: 0 <= i < from ==> !UnquotedBracket(s, i)
    ensures ArrayEnd(s, e)
    decreases |s| - from
  {
    if from == |s| || UnquotedBracket(s, from) {
      e := from;
    } else {
      e := ArrayEnds(s, from + 1);
    }
  }

  /** Skipping a part with an even number of quotes and no unquoted bracket. */
  lemma EndBehind(s: string, m: nat, e: nat)
    requires m <= |s| && Quotes(s[..m]) % 2 == 0 && ArrayEnd(s, e)
    requires forall i :: 0 <= i < m ==> !UnquotedBracket(s, i)
    ensures m <= e && ArrayEnd(s[m..], e - m)
  {
    forall i: nat | i < |s| - m ensures UnquotedBracket(s[m..], i) <==> UnquotedBracket(s, m + i) {
      QuotesFrom(s, m, i);
    }
  }

  lemma {:induction false} NoQuotes(w: string)
    requires '"' !in w
    ensures Quotes(w) == 0
  {
    if w != [] {
      assert w[0] in w;
      NoQuotes(w[1..]);
    }
  }

  /** Up to its closing quote a string at the front of the text has the one quote it begins with. */
  lemma OneQuote(s: string, i: nat)
    requires s != [] && s[0] == '"' && 0 < i <= 1 + Until(s[1..], '"')
    ensures Quotes(s[..i]) == 1
  {
    assert s[..i][1..] == s[1..][..i - 1];
    NoQuotes(s[1..][..i - 1]);
  }

  lemma NoBracketInString(s: string)
    requires s != [] && s[0] == '"'
    ensures forall i :: 0 <= i < |s| - |BehindToken(s)| ==> !UnquotedBracket(s, i)
  {
    var n := Until(s[1..], '"');
    assert n < |s| - 1 ==> s[1..][n] == s[n + 1];
    forall i | 0 <= i < |s| - |BehindToken(s)| ensures !UnquotedBracket(s, i) {
      if 0 < i <= 1 + n {
        OneQuote(s, i);
      }
    }
  }

  lemma BehindString(s: string)
    requires s != [] && s[0] == '"' && Until(s[1..], '"') + 1 < |s|
    ensures var n := Until(s[1..], '"'); BehindToken(s) == s[n + 2..] && Quotes(s[..n + 2]) == 2
  {
    var n := Until(s[1..], '"');
    OneQuote(s, n + 1);
    assert s[..n + 2] == s[..n + 1] + [s[1..][n]];
    QuotesConcat(s[..n + 1], [s[1..][n]]);
  }

  /** What the loop skips in one go does not hide the end of the array. */
  lemma StringSkipped(s: string, e: nat)
    requires s != [] && s[0] == '"' && ArrayEnd(s, e)
    ensures var m := |s| - |BehindToken(s)|;
            m <= e && s[m..] == BehindToken(s) && ArrayEnd(BehindToken(s), e - m)
  {
    NoBracketInString(s);
    if Until(s[1..], '"') + 1 < |s| {
      BehindString(s);
      EndBehind(s, Until(s[1..], '"') + 2, e);
    } else {
      assert BehindToken(s) == [] == s[|s|..];
    }
  }

  lemma CharSkipped(s: string, e: nat)
    requires s != [] && s[0] != '"' && s[0] != ']' && ArrayEnd(s, e)
    ensures 0 < e && ArrayEnd(s[1..], e - 1)
  {
    assert s[..1] == [s[0]];
    EndBehind(s, 1, e);
  }

  lemma BracketFirst(s: string, e: nat)
    requires s != [] && s[0] == ']' && ArrayEnd(s, e)
    ensures e == 0
  {
    assert UnquotedBracket(s, 0);
  }

  lemma {:induction false} ClosedAt(s: string, e: nat)
    requires ArrayEnd(s, e)
    ensures Closed(s) <==> e < |s|
    decreases |s|
  {
    if s == [] {
    } else if s[0] == ']' {
      BracketFirst(s, e);
    } else if s[0] == '"' {
      StringSkipped(s, e);
      ClosedAt(BehindToken(s), e - (|s| - |BehindToken(s)|));
    } else {
      CharSkipped(s, e);
      ClosedAt(s[1..], e - 1);
    }
  }

  /** The array is closed exactly when a bracket stands behind an even number of quotes. */
  lemma ClosedIff(s: string)
    ensures Closed(s) <==> exists e: nat :: UnquotedBracket(s, e)
  {
    var e := ArrayEnds(s, 0);
    ClosedAt(s, e);
  }

  /** When the parser leaves the text, without the parser's own recursions. */
  lemma RunawayIff(s: string)
    ensures Runaway(s) <==>
            && (forall e: nat :: !UnquotedBracket(s, e))
            && Quotes(s) % 2 == 0 && s != [] && IsGap(s[|s| - 1])
  {
    ClosedIff(s);
    EvenQuotesCounts(s);
  }

  /** A string begins at `i`: a quote behind an even number of quotes. */
  predicate OpensString(s: string, i: nat) { i < |s| && s[i] == '"' && Quotes(s[..i]) % 2 == 0 }

  /** It ends at `j`: at the next quote, or with the text. */
  predicate EndsString(s: string, i: nat, j: nat) {
    i < j <= |s| && (j < |s| ==> s[j] == '"') && '"' !in s[i + 1..j]
  }

  /** A string that begins before the end of the array. */
  ghost predicate StringIn(s: string, e: nat, i: nat, j: nat) {
    ArrayEnd(s, e) && i < e && OpensString(s, i) && EndsString(s, i, j)
  }

  lemma StringShifted(s: string, m: nat, i: nat, j: nat)
    requires m <= i < j <= |s| && Quotes(s[..m]) % 2 == 0 && OpensString(s, i) && EndsString(s, i, j)
    ensures OpensString(s[m..], i - m) && EndsString(s[m..], i - m, j - m)
    ensures s[m..][i - m + 1..j - m] == s[i + 1..j]
    ensures Quotes(s[..i]) == Quotes(s[..m]) + Quotes(s[m..][..i - m])
  {
    QuotesFrom(s, m, i - m);
    assert s[m..][i - m + 1..j - m] == s[i + 1..j];
  }

  lemma FirstString(s: string, j: nat)
    requires s != [] && s[0] == '"' && EndsString(s, 0, j)
    ensures j == 1 + Until(s[1..], '"') && s[1..j] == s[1..][..Until(s[1..], '"')]
  {
    assert s[1..j] == s[1..][..j - 1];
    assert forall i :: 0 <= i < j - 1 ==> s[1..][i] == s[1..j][i];
  }

  lemma NextString(s: string, i: nat)
    requires s != [] && s[0] == '"' && 0 < i && OpensString(s, i)
    ensures Until(s[1..], '"') + 1 < |s| && Until(s[1..], '"') + 2 <= i
  {
    assert s[i] == s[1..][i - 1];
    if i <= Until(s[1..], '"') + 1 {
      OneQuote(s, i);
    }
  }

  lemma StringTokens(s: string)
    requires s != [] && s[0] == '"'
    ensures Tokens(s) == [s[1..][..Until(s[1..], '"')]] + Tokens(BehindToken(s))
  {
  }

  /** How many strings begin in front of the end of the array, a string at the front included. */
  lemma StringCounts(s: string, e: nat, m: nat)
    requires s != [] && s[0] == '"' && m == |s| - |BehindToken(s)| <= e <= |s| && s[m..] == BehindToken(s)
    ensures (Quotes(s[..e]) + 1) / 2 == 1 + (Quotes(s[m..][..e - m]) + 1) / 2
  {
    QuotesFrom(s, m, e - m);
    if Until(s[1..], '"') + 1 < |s| {
      BehindString(s);
    } else {
      OneQuote(s, |s|);
      assert s[m..][..e - m] == [];
    }
  }

  lemma StepChar(s: string, e: nat)
    requires s != [] && s[0] != '"' && s[0] != ']' && ArrayEnd(s, e)
    ensures Tokens(s) == Tokens(s[1..]) && Quotes(s[..1]) == 0
    ensures 0 < e && ArrayEnd(s[1..], e - 1) && Quotes(s[..e]) == Quotes(s[1..][..e - 1])
  {
    assert s[..1] == [s[0]];
    CharSkipped(s, e);
    QuotesFrom(s, 1, e - 1);
  }

  /** The string from `i` to `j` is the token of its number. */
  ghost predicate TokenHere(s: string, i: nat, j: nat)
    requires i < j <= |s|
  {
    var k := Quotes(s[..i]) / 2;
    k < |Tokens(s)| && Tokens(s)[k] == s[i + 1..j]
  }

  lemma FirstToken(s: string, j: nat)
    requires s != [] && s[0] == '"' && EndsString(s, 0, j)
    ensures TokenHere(s, 0, j)
  {
    FirstString(s, j);
    StringTokens(s);
  }

  /** A string behind the first, seen from behind the first. */
  lemma LaterString(s: string, e: nat, i: nat, j: nat) returns (m: nat)
    requires s != [] && s[0] == '"' && 0 < i && StringIn(s, e, i, j)
    ensures 2 <= m <= i && m <= e && s[m..] == BehindToken(s)
    ensures StringIn(s[m..], e - m, i - m, j - m)
  {
    m := Until(s[1..], '"') + 2;
    NextString(s, i);
    BehindString(s);
    StringSkipped(s, e);
    StringShifted(s, m, i, j);
  }

  lemma LaterToken(s: string, m: nat, i: nat, j: nat)
    requires s != [] && s[0] == '"' && 2 <= m <= i < j <= |s| && s[m..] == BehindToken(s)
    requires TokenHere(s[m..], i - m, j - m)
    ensures TokenHere(s, i, j)
  {
    StringTokens(s);
    BehindString(s);
    QuotesFrom(s, m, i - m);
    assert s[m..][i - m + 1..j - m] == s[i + 1..j];
    assert m == Until(s[1..], '"') + 2;
  }

  lemma StringBehindChar(s: string, e: nat, i: nat, j: nat)
    requires s != [] && s[0] != '"' && StringIn(s, e, i, j)
    ensures s[0] != ']' && 0 < i && StringIn(s[1..], e - 1, i - 1, j - 1)
  {
    if s[0] == ']' {
      BracketFirst(s, e);
    } else {
      StepChar(s, e);
      StringShifted(s, 1, i, j);
    }
  }

  lemma TokenBehindChar(s: string, i: nat, j: nat)
    requires s != [] && s[0] != '"' && s[0] != ']' && 1 <= i < j <= |s| && TokenHere(s[1..], i - 1, j - 1)
    ensures TokenHere(s, i, j)
  {
    assert s[..1] == [s[0]];
    QuotesFrom(s, 1, i - 1);
    assert s[1..][i - 1 + 1..j - 1] == s[i + 1..j];
  }

  lemma SkipString(s: string, e: nat, i: nat, j: nat) returns (m: nat, t: string)
    requires StringIn(s, e, i, j) && 0 < i && s[0] == '"'
    ensures |t| < |s| && m <= i && m <= e && StringIn(t, e - m, i - m, j - m)
    ensures TokenHere(t, i - m, j - m) ==> TokenHere(s, i, j)
  {
    m := LaterString(s, e, i, j);
    t := s[m..];
    if TokenHere(t, i - m, j - m) {
      LaterToken(s, m, i, j);
    }
  }

  lemma SkipChar(s: string, e: nat, i: nat, j: nat) returns (t: string)
    requires StringIn(s, e, i, j) && s[0] != '"'
    ensures |t| < |s| && 0 < i && 0 < e && StringIn(t, e - 1, i - 1, j - 1)
    ensures TokenHere(t, i - 1, j - 1) ==> TokenHere(s, i, j)
  {
    StringBehindChar(s, e, i, j);
    t := s[1..];
    if TokenHere(t, i - 1, j - 1) {
      TokenBehindChar(s, i, j);
    }
  }

  /** Every string that begins before the end of the array is a token: the `k`th stands between
      quotes `2k` and `2k + 1`, or goes on to the end of the text without the latter. */
  lemma {:induction false} TokenAt(s: string, e: nat, i: nat, j: nat)
    requires StringIn(s, e, i, j)
    ensures TokenHere(s, i, j)
    decreases |s|
  {
    if s[0] != '"' {
      var t := SkipChar(s, e, i, j);
      TokenAt(t, e - 1, i - 1, j - 1);
    } else if i == 0 {
      FirstToken(s, j);
    } else {
      var m, t := SkipString(s, e, i, j);
      TokenAt(t, e - m, i - m, j - m);
    }
  }

  /** And there are no other tokens: there are as many as strings that begin there. */
  lemma {:induction false} TokenCount(s: string, e: nat)
    requires ArrayEnd(s, e)
    ensures |Tokens(s)| == (Quotes(s[..e]) + 1) / 2
    decreases |s|
  {
    if s == [] {
    } else if s[0] == ']' {
      BracketFirst(s, e);
    } else if s[0] == '"' {
      var m := |s| - |BehindToken(s)|;
      StringTokens(s);
      StringSkipped(s, e);
      StringCounts(s, e, m);
      TokenCount(s[m..], e - m);
    } else {
      StepChar(s, e);
      TokenCount(s[1..], e - 1);
    }
  }
}
