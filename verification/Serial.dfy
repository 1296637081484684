/** The serial-log tools of zen-test: the polling tail and the one-shot scanner. */
module Serial {
  import opened Prelude
  import opened Scanning

  /** `str::contains`. */
  predicate Contains(s: string, pat: string) { Find(s, pat).Some? }

  lemma ContainsAt(s: string, pat: string, i: nat)
    requires OccursAt(s, pat, i)
    ensures Contains(s, pat)
  {
    FindFacts(s, pat);
  }

  // ---------------------------------------------------------------------------------------
  // tail.rs
  // ---------------------------------------------------------------------------------------

  datatype WaitResult = PatternFound(pattern: string) | ErrorFound(pattern: string) | Timeout

  /** The first pattern of the list that occurs. */
  function FirstFound(content: string, pats: seq<string>): (r: Option<string>)
    ensures r.Some? <==> exists p <- pats :: Contains(content, p)
    ensures r.Some? ==> Contains(content, r.value)
    ensures r.Some? ==>
              (exists k :: 0 <= k < |pats| && pats[k] == r.value
                           && forall i :: 0 <= i < k ==> !Contains(content, pats[i]))
  {
    if pats == [] then None
    else if Contains(content, pats[0]) then assert pats[0] in pats; Some(pats[0])
    else
      var r := FirstFound(content, pats[1..]);
      assert pats == [pats[0]] + pats[1..];
      assert r.Some? ==> forall k :: 0 <= k < |pats[1..]| ==> pats[1..][k] == pats[k + 1];
      r
  }

  /** Success patterns are looked for first, each list in order. */
  function Check(content: string, good: seq<string>, bad: seq<string>): Option<WaitResult> {
    match FirstFound(content, good)
    case Some(p) => Some(PatternFound(p))
    case None =>
      match FirstFound(content, bad)
      case Some(p) => Some(ErrorFound(p))
      case None => None
  }

  /** A poller that looks at the whole text every time.  `polls[k]` is what poll `k` reads, nothing
      if the file cannot be read; the deadline passes after the last of them.  Also returns the
      number of the poll that decided. */
  function Naive(polls: seq<Option<string>>, k: nat, good: seq<string>, bad: seq<string>): (WaitResult, nat)
    requires k <= |polls|
    decreases |polls| - k
  {
    if k == |polls| then (Timeout, k)
    else if polls[k].None? || Check(polls[k].value, good, bad).None? then Naive(polls, k + 1, good, bad)
    else (Check(polls[k].value, good, bad).value, k)
  }

  /** The poller as written, from poll `k` on with `last` bytes seen: no check without new text. */
  function Incremental(polls: seq<Option<string>>, k: nat, last: nat, good: seq<string>, bad: seq<string>)
    : (WaitResult, nat)
    requires k <= |polls|
    decreases |polls| - k
  {
    if k == |polls| then (Timeout, k)
    else
      match polls[k]
      case None => Incremental(polls, k + 1, last, good, bad)
      case Some(content) =>
        if |content| <= last || Check(content, good, bad).None?
        then Incremental(polls, k + 1, |content|, good, bad)
        else (Check(content, good, bad).value, k)
  }

  /** One of the two pattern loops. */
  method FirstMatch(content: string, pats: seq<string>) returns (r: Option<string>)
    ensures r == FirstFound(content, pats)
  {
    for i := 0 to |pats|
      invariant FirstFound(content, pats[i..]) == FirstFound(content, pats)
    {
      assert pats[i..][1..] == pats[i + 1..];
      if Contains(content, pats[i]) {
        return Some(pats[i]);
      }
    }
    r := None;
  }

  ghost predicate Occurs(content: string, pat: string) { exists i: nat :: OccursAt(content, pat, i) }

  ghost predicate NoneOccurs(content: string, pats: seq<string>) { forall p <- pats :: !Occurs(content, p) }

  /** `p` is the first of the list that occurs. */
  ghost predicate FirstOccurring(content: string, pats: seq<string>, p: string) {
    exists k :: 0 <= k < |pats| && pats[k] == p && Occurs(content, p)
                && forall i :: 0 <= i < k ==> !Occurs(content, pats[i])
  }

  /** What a text decides: success patterns come before error patterns, and a pattern earlier in its
      list before a later one. */
  ghost predicate Decides(content: string, good: seq<string>, bad: seq<string>, r: WaitResult) {
    match r
    case PatternFound(p) => FirstOccurring(content, good, p)
    case ErrorFound(p) => NoneOccurs(content, good) && FirstOccurring(content, bad, p)
    case Timeout => NoneOccurs(content, good) && NoneOccurs(content, bad)
  }

  /** The length of the last text read before poll `k`, 0 if there is none. */
  function LastLength(polls: seq<Option<string>>, k: nat): nat
    requires k <= |polls|
  {
    if k == 0 then 0
    else if polls[k - 1].Some? then |polls[k - 1].value|
    else LastLength(polls, k - 1)
  }

  /** Poll `k` read a text that is longer than the one before it. */
  predicate Grew(polls: seq<Option<string>>, k: nat)
    requires k < |polls|
  {
    polls[k].Some? && |polls[k].value| > LastLength(polls, k)
  }

  /** The result comes from the first poll that read a longer text than before with a pattern in
      it; the deadline passes exactly without one. */
  ghost predicate Awaited(polls: seq<Option<string>>, from: nat, good: seq<string>, bad: seq<string>,
                          r: WaitResult, poll: nat)
  {
    && from <= poll <= |polls|
    && (forall j :: from <= j < poll && Grew(polls, j) ==> Decides(polls[j].value, good, bad, Timeout))
    && (poll < |polls| ==> Grew(polls, poll) && r != Timeout && Decides(polls[poll].value, good, bad, r))
    && (poll == |polls| ==> r == Timeout)
  }

  lemma ContainsIff(content: string, pat: string)
    ensures Contains(content, pat) <==> Occurs(content, pat)
  {
    FindFacts(content, pat);
  }

  lemma FirstFoundIs(content: string, pats: seq<string>)
    ensures match FirstFound(content, pats)
            case Some(p) => FirstOccurring(content, pats, p)
            case None => NoneOccurs(content, pats)
  {
    forall p ensures Contains(content, p) <==> Occurs(content, p) {
      ContainsIff(content, p);
    }
  }

  lemma CheckDecides(content: string, good: seq<string>, bad: seq<string>)
    ensures match Check(content, good, bad)
            case Some(r) => r != Timeout && Decides(content, good, bad, r)
            case None => Decides(content, good, bad, Timeout)
  {
    FirstFoundIs(content, good);
    FirstFoundIs(content, bad);
  }

  lemma {:induction false} IncrementalExact(polls: seq<Option<string>>, k: nat, good: seq<string>, bad: seq<string>)
    requires k <= |polls|
    ensures var (r, poll) := Incremental(polls, k, LastLength(polls, k), good, bad);
            Awaited(polls, k, good, bad, r, poll)
    decreases |polls| - k
  {
    if k < |polls| {
      IncrementalExact(polls, k + 1, good, bad);
      if polls[k].Some? {
        CheckDecides(polls[k].value, good, bad);
      }
    }
  }

  /** The result of waiting, on any log. */
  lemma WaitExact(polls: seq<Option<string>>, good: seq<string>, bad: seq<string>)
    ensures var (r, poll) := Incremental(polls, 0, 0, good, bad); Awaited(polls, 0, good, bad, r, poll)
  {
    IncrementalExact(polls, 0, good, bad);
  }

  /** `wait_for_pattern`. */
  method WaitForPattern(polls: seq<Option<string>>, good: seq<string>, bad: seq<string>)
    returns (r: WaitResult, poll: nat)
    ensures (r, poll) == Incremental(polls, 0, 0, good, bad)
    ensures Awaited(polls, 0, good, bad, r, poll)
  {
    WaitExact(polls, good, bad);
    var last := 0;
    poll := 0;
    while true
      invariant 0 <= poll <= |polls| && last >= 0
      invariant Incremental(polls, poll, last, good, bad) == Incremental(polls, 0, 0, good, bad)
      decreases |polls| - poll
    {
      if poll >= |polls| {
        return Timeout, poll;
      }
      if polls[poll].None? {
        poll := poll + 1;
        continue;
      }
      var content := polls[poll].value;
      var news := if last < |content| then content[last..] else "";
      last := |content|;
      if news == "" {
        poll := poll + 1;
        continue;
      }
      var hit := FirstMatch(content, good);
      if hit.Some? {
        return PatternFound(hit.value), poll;
      }
      hit := FirstMatch(content, bad);
      if hit.Some? {
        return ErrorFound(hit.value), poll;
      }
      poll := poll + 1;
    }
  }

  /** A log is only appended to: what an earlier poll read is a prefix of what a later one reads. */
  ghost predicate AppendOnly(polls: seq<Option<string>>) {
    forall i, j :: 0 <= i < j < |polls| && polls[i].Some? && polls[j].Some? ==> polls[i].value <= polls[j].value
  }

  /** `seen` was read before poll `k`, or nothing was. */
  lemma {:induction false} IncrementalFrom(polls: seq<Option<string>>, k: nat, seen: string,
                                          good: seq<string>, bad: seq<string>)
    requires k <= |polls| && AppendOnly(polls) && Check(seen, good, bad).None?
    requires forall j :: k <= j < |polls| && polls[j].Some? ==> seen <= polls[j].value
    ensures Incremental(polls, k, |seen|, good, bad) == Naive(polls, k, good, bad)
    decreases |polls| - k
  {
    if k < |polls| {
      if polls[k].None? {
        IncrementalFrom(polls, k + 1, seen, good, bad);
      } else if Check(polls[k].value, good, bad).None? {
        IncrementalFrom(polls, k + 1, polls[k].value, good, bad);
      } else {
        assert seen <= polls[k].value && seen != polls[k].value;
      }
    }
  }

  lemma NothingInEmpty(good: seq<string>, bad: seq<string>)
    ensures Check("", good, bad).None? <==> "" !in good && "" !in bad
  {
    forall p: string ensures Contains("", p) <==> p == "" {
      FindFacts("", p);
      if p == "" {
        assert OccursAt("", p, 0);
      }
    }
  }

  /** Skipping the check when nothing new arrived is invisible, result and poll alike, on every
      append-only log if and only if no pattern is empty. */
  lemma IncrementalIsNaiveIff(good: seq<string>, bad: seq<string>)
    ensures (forall polls :: AppendOnly(polls) ==> Incremental(polls, 0, 0, good, bad) == Naive(polls, 0, good, bad))
            <==> "" !in good && "" !in bad
  {
    NothingInEmpty(good, bad);
    if "" !in good && "" !in bad {
      forall polls | AppendOnly(polls) ensures Incremental(polls, 0, 0, good, bad) == Naive(polls, 0, good, bad) {
        IncrementalFrom(polls, 0, "", good, bad);
      }
    } else {
      var polls := [Some("")];
      assert AppendOnly(polls);
      assert Incremental(polls, 0, 0, good, bad) == Incremental(polls, 1, 0, good, bad) == (Timeout, 1);
      assert Naive(polls, 0, good, bad).1 == 0;
    }
  }

  // What the poller returns, said by occurrence alone.

  lemma {:induction false} NaiveExact(polls: seq<Option<string>>, k: nat, good: seq<string>, bad: seq<string>)
    requires k <= |polls|
    ensures var (r, poll) := Naive(polls, k, good, bad);
            && k <= poll <= |polls|
            && (forall j :: k <= j < poll && polls[j].Some? ==> Decides(polls[j].value, good, bad, Timeout))
            && (poll < |polls| ==> polls[poll].Some? && r != Timeout && Decides(polls[poll].value, good, bad, r))
            && (poll == |polls| ==> r == Timeout)
    decreases |polls| - k
  {
    if k < |polls| {
      NaiveExact(polls, k + 1, good, bad);
      if polls[k].Some? {
        CheckDecides(polls[k].value, good, bad);
      }
    }
  }

  /** On an append-only log without empty patterns nothing is missed: no text read before the one
      that decided contains any pattern, and the deadline passes exactly if none ever does. */
  lemma NothingIsMissed(polls: seq<Option<string>>, good: seq<string>, bad: seq<string>)
    requires AppendOnly(polls) && "" !in good && "" !in bad
    ensures var (r, poll) := Incremental(polls, 0, 0, good, bad);
            && poll <= |polls|
            && (forall j :: 0 <= j < poll && polls[j].Some? ==> Decides(polls[j].value, good, bad, Timeout))
            && (poll < |polls| ==> polls[poll].Some? && r != Timeout && Decides(polls[poll].value, good, bad, r))
            && (r == Timeout <==> poll == |polls|)
  {
    IncrementalIsNaiveIff(good, bad);
    NaiveExact(polls, 0, good, bad);
  }

  // ---------------------------------------------------------------------------------------
  // scan.rs
  // ---------------------------------------------------------------------------------------

  datatype ErrorPattern = ErrorPattern(pattern: string, tag: string)

  const ERROR_PATTERNS: seq<ErrorPattern> := [
    ErrorPattern("ERROR: AddressSanitizer", "asan"),
    ErrorPattern("ERROR: LeakSanitizer", "lsan"),
    ErrorPattern("ERROR: UndefinedBehaviorSanitizer", "ubsan"),
    ErrorPattern("Kernel panic", "kernel_panic"),
    ErrorPattern("BUG:", "kernel_bug"),
    ErrorPattern("Oops:", "kernel_oops"),
    ErrorPattern("segfault", "segfault"),
    ErrorPattern("SIGABRT", "sigabrt"),
    ErrorPattern("Assertion", "assertion")]

  datatype PatternMatch = PatternMatch(pattern: string, tag: string, lineNumber: nat, line: string)

  datatype ScanResult = ScanResult(bootSignalFound: bool, errors: seq<PatternMatch>, lineCount: nat)

  /** A line that a newline ended loses one carriage return. */
  function Chomp(line: string): string {
    if line != "" && line[|line| - 1] == '\r' then line[..|line| - 1] else line
  }

  /** `str::lines`. */
  function Lines(s: string): seq<string> {
    if s == "" then []
    else
      var n := Until(s, '\n');
      if n < |s| then [Chomp(s[..n])] + Lines(s[n + 1..]) else [s]
  }

  function Newlines(s: string): nat {
    if s == "" then 0 else (if s[0] == '\n' then 1 else 0) + Newlines(s[1..])
  }

  lemma {:induction false} NewlinesConcat(a: string, b: string)
    ensures Newlines(a + b) == Newlines(a) + Newlines(b)
  {
    if a == "" {
      assert a + b == b;
    } else {
      assert (a + b)[1..] == a[1..] + b;
      NewlinesConcat(a[1..], b);
    }
  }

  lemma {:induction false} NoNewlines(s: string)
    requires '\n' !in s
    ensures Newlines(s) == 0 && Until(s, '\n') == |s|
  {
    if s != "" {
      assert s[0] in s;
      NoNewlines(s[1..]);
    }
  }

  /** Cutting at the first line feed. */
  lemma CutLine(s: string) returns (a: string, t: string)
    requires '\n' in s
    ensures '\n' !in a && s == a + ("\n" + t)
  {
    var n := Until(s, '\n');
    var k :| 0 <= k < |s| && s[k] == '\n';
    a, t := s[..n], s[n + 1..];
  }

  lemma LinesCons(a: string, t: string)
    requires '\n' !in a
    ensures Lines(a + ("\n" + t)) == [Chomp(a)] + Lines(t) && Newlines(a + ("\n" + t)) == 1 + Newlines(t)
  {
    var s := a + ("\n" + t);
    UntilAfter(a, '\n', t);
    assert s[..|a|] == a && s[|a| + 1..] == t;
    NoNewlines(a);
    NewlinesConcat(a, "\n" + t);
    assert ("\n" + t)[1..] == t;
  }

  lemma OneLine(s: string)
    requires '\n' !in s
    ensures Lines(s) == if s == "" then [] else [s]
  {
    NoNewlines(s);
  }

  /** There are as many lines as line feeds, and one more if text follows the last of them. */
  lemma {:induction false} LineCount(s: string)
    ensures |Lines(s)| == Newlines(s) + if s != "" && s[|s| - 1] != '\n' then 1 else 0
    decreases |s|
  {
    if '\n' in s {
      var a, t := CutLine(s);
      LinesCons(a, t);
      LineCount(t);
    } else {
      OneLine(s);
      NoNewlines(s);
    }
  }

  /** The line, whole or without the carriage return in front of its line feed, has that number. */
  ghost predicate Listed(lines: seq<string>, k: nat, line: string, ended: bool) {
    && k < |lines|
    && lines[k] == if ended && line != "" && line[|line| - 1] == '\r' then line[..|line| - 1] else line
  }

  lemma FirstListed(line: string, post: string)
    requires '\n' !in line && (post == "" || post[0] == '\n') && line + post != ""
    ensures Listed(Lines(line + post), 0, line, post != "")
  {
    if post == "" {
      assert line + post == line;
      OneLine(line);
    } else {
      assert post == "\n" + post[1..];
      LinesCons(line, post[1..]);
    }
  }

  lemma Regrouped(a: string, b: string, c: string, d: string)
    ensures (a + (b + c)) + d == a + (b + (c + d))
  {
  }

  lemma LaterLines(a: string, t: string, rest: string)
    requires '\n' !in a
    ensures Lines((a + ("\n" + t)) + rest) == [Chomp(a)] + Lines(t + rest)
    ensures Newlines(a + ("\n" + t)) == 1 + Newlines(t)
  {
    Regrouped(a, "\n", t, rest);
    LinesCons(a, t + rest);
    LinesCons(a, t);
  }

  /** The line behind `pre` and in front of `post`: its number is that of the line feeds in front of
      it, and it ends with the text or at a line feed. */
  lemma {:induction false} LineAt(pre: string, line: string, post: string)
    requires pre == "" || pre[|pre| - 1] == '\n'
    requires '\n' !in line && (post == "" || post[0] == '\n') && line + post != ""
    ensures Listed(Lines(pre + (line + post)), Newlines(pre), line, post != "")
    decreases |pre|
  {
    if pre == "" {
      assert pre + (line + post) == line + post;
      FirstListed(line, post);
    } else {
      var a, t := CutLine(pre);
      assert t != "" ==> t[|t| - 1] == pre[|pre| - 1];
      LineAt(t, line, post);
      LaterLines(a, t, line + post);
    }
  }

  predicate AnyContains(lines: seq<string>, pat: string) { exists l <- lines :: Contains(l, pat) }

  /** Some line contains the pattern. */
  predicate InSomeLine(s: string, pat: string) { AnyContains(Lines(s), pat) }

  lemma AnyContainsAppend(lines: seq<string>, l: string, pat: string)
    ensures AnyContains(lines + [l], pat) <==> AnyContains(lines, pat) || Contains(l, pat)
  {
    assert l in lines + [l];
    assert forall k <- lines :: k in lines + [l];
  }

  function LineHits(reg: seq<ErrorPattern>, line: string, i: nat, m: nat): seq<(nat, nat)>
    requires m <= |reg|
  {
    if m == 0 then []
    else LineHits(reg, line, i, m - 1) + if Contains(line, reg[m - 1].pattern) then [(i, m - 1)] else []
  }

  /** The matching (line, pattern) pairs of the first `n` lines. */
  function Hits(reg: seq<ErrorPattern>, lines: seq<string>, n: nat): seq<(nat, nat)>
    requires n <= |lines|
  {
    if n == 0 then [] else Hits(reg, lines, n - 1) + LineHits(reg, lines[n - 1], n - 1, |reg|)
  }

  ghost predicate InRange(reg: seq<ErrorPattern>, lines: seq<string>, hits: seq<(nat, nat)>) {
    forall h <- hits :: h.0 < |lines| && h.1 < |reg|
  }

  function Report(reg: seq<ErrorPattern>, lines: seq<string>, hits: seq<(nat, nat)>): seq<PatternMatch>
    requires forall h <- hits :: h.0 < |lines| && h.1 < |reg|
  {
    if hits == [] then []
    else
      var h := hits[|hits| - 1];
      Report(reg, lines, hits[..|hits| - 1])
      + [PatternMatch(reg[h.1].pattern, reg[h.1].tag, h.0 + 1, lines[h.0])]
  }

  /** One report for each hit, in the same order, with line numbers from 1. */
  lemma {:induction false} ReportAt(reg: seq<ErrorPattern>, lines: seq<string>, hits: seq<(nat, nat)>, k: nat)
    requires k < |hits| && forall h <- hits :: h.0 < |lines| && h.1 < |reg|
    ensures |Report(reg, lines, hits)| == |hits|
    ensures var (i, j) := hits[k];
            Report(reg, lines, hits)[k] == PatternMatch(reg[j].pattern, reg[j].tag, i + 1, lines[i])
  {
    if |hits| > 1 {
      ReportAt(reg, lines, hits[..|hits| - 1], if k < |hits| - 1 then k else 0);
    }
  }

  /** By line, then in the order of the registry. */
  ghost predicate Before(a: (nat, nat), b: (nat, nat)) { a.0 < b.0 || (a.0 == b.0 && a.1 < b.1) }

  ghost predicate Ascending(hits: seq<(nat, nat)>) {
    forall x, y :: 0 <= x < y < |hits| ==> Before(hits[x], hits[y])
  }

  lemma {:induction false} LineHitsMembers(reg: seq<ErrorPattern>, line: string, i: nat, m: nat)
    requires m <= |reg|
    ensures forall h <- LineHits(reg, line, i, m) :: h.0 == i && h.1 < m && Contains(line, reg[h.1].pattern)
    ensures forall j :: 0 <= j < m && Contains(line, reg[j].pattern) ==> (i, j) in LineHits(reg, line, i, m)
  {
    if m > 0 {
      LineHitsMembers(reg, line, i, m - 1);
    }
  }

  lemma AscendingAppend(a: seq<(nat, nat)>, b: seq<(nat, nat)>)
    requires Ascending(a) && Ascending(b) && forall x <- a :: forall y <- b :: Before(x, y)
    ensures Ascending(a + b)
  {
    forall x, y | 0 <= x < y < |a + b| ensures Before((a + b)[x], (a + b)[y]) {
      if x < |a| <= y {
        assert a[x] in a && b[y - |a|] in b;
      }
    }
  }

  lemma {:induction false} LineHitsAscending(reg: seq<ErrorPattern>, line: string, i: nat, m: nat)
    requires m <= |reg|
    ensures Ascending(LineHits(reg, line, i, m))
  {
    if m > 0 {
      LineHitsAscending(reg, line, i, m - 1);
      LineHitsMembers(reg, line, i, m - 1);
      AscendingAppend(LineHits(reg, line, i, m - 1), [(i, m - 1)]);
      assert LineHits(reg, line, i, m - 1) + [] == LineHits(reg, line, i, m - 1);
    }
  }

  /** Accumulating parts that belong to their lines: what belongs to a line is what its part has. */
  lemma {:induction false} InParts(all: nat -> seq<(nat, nat)>, part: nat -> seq<(nat, nat)>, n: nat, h: (nat, nat))
    requires all(0) == [] && forall k :: 0 <= k < n ==> all(k + 1) == all(k) + part(k)
    requires forall k :: 0 <= k < n ==> forall x <- part(k) :: x.0 == k
    ensures h in all(n) <==> h.0 < n && h in part(h.0)
  {
    if n > 0 {
      InParts(all, part, n - 1, h);
      assert all(n - 1 + 1) == all(n - 1) + part(n - 1);
    }
  }

  lemma PartsOfLines(reg: seq<ErrorPattern>, lines: seq<string>)
    ensures forall k: nat :: k < |lines| ==> forall x <- LineHits(reg, lines[k], k, |reg|) :: x.0 == k
  {
    forall k: nat | k < |lines| ensures forall x <- LineHits(reg, lines[k], k, |reg|) :: x.0 == k {
      LineHitsMembers(reg, lines[k], k, |reg|);
    }
  }

  /** The hits of one line among all. */
  lemma HitsByLine(reg: seq<ErrorPattern>, lines: seq<string>, n: nat, h: (nat, nat))
    requires n <= |lines|
    ensures h in Hits(reg, lines, n) <==> h.0 < n && h in LineHits(reg, lines[h.0], h.0, |reg|)
  {
    var all := (k: nat) => if k <= |lines| then Hits(reg, lines, k) else [];
    var part := (k: nat) => if k < |lines| then LineHits(reg, lines[k], k, |reg|) else [];
    PartsOfLines(reg, lines);
    InParts(all, part, n, h);
  }

  lemma HitsMembers(reg: seq<ErrorPattern>, lines: seq<string>, n: nat)
    requires n <= |lines|
    ensures forall h <- Hits(reg, lines, n) :: h.0 < n && h.1 < |reg| && Contains(lines[h.0], reg[h.1].pattern)
    ensures forall i, j :: 0 <= i < n && 0 <= j < |reg| && Contains(lines[i], reg[j].pattern) ==>
              (i, j) in Hits(reg, lines, n)
  {
    forall h | h in Hits(reg, lines, n)
      ensures h.0 < n && h.1 < |reg| && Contains(lines[h.0], reg[h.1].pattern)
    {
      HitsByLine(reg, lines, n, h);
      LineHitsMembers(reg, lines[h.0], h.0, |reg|);
    }
    forall i, j | 0 <= i < n && 0 <= j < |reg| && Contains(lines[i], reg[j].pattern)
      ensures (i, j) in Hits(reg, lines, n)
    {
      HitsByLine(reg, lines, n, (i, j));
      LineHitsMembers(reg, lines[i], i, |reg|);
    }
  }

  lemma LinesOrdered(reg: seq<ErrorPattern>, lines: seq<string>, n: nat)
    requires n < |lines|
    ensures forall x <- Hits(reg, lines, n) :: forall y <- LineHits(reg, lines[n], n, |reg|) :: Before(x, y)
  {
    forall x | x in Hits(reg, lines, n) ensures x.0 < n {
      HitsByLine(reg, lines, n, x);
    }
    LineHitsMembers(reg, lines[n], n, |reg|);
  }

  lemma {:induction false} HitsAscending(reg: seq<ErrorPattern>, lines: seq<string>, n: nat)
    requires n <= |lines|
    ensures Ascending(Hits(reg, lines, n))
  {
    if n > 0 {
      HitsAscending(reg, lines, n - 1);
      LinesOrdered(reg, lines, n - 1);
      LineHitsAscending(reg, lines[n - 1], n - 1, |reg|);
      AscendingAppend(Hits(reg, lines, n - 1), LineHits(reg, lines[n - 1], n - 1, |reg|));
    }
  }

  /** The hits are exactly the matching pairs, each once, in line and then registry order. */
  lemma HitsExact(reg: seq<ErrorPattern>, lines: seq<string>, n: nat)
    requires n <= |lines|
    ensures Ascending(Hits(reg, lines, n))
    ensures forall h <- Hits(reg, lines, n) :: h.0 < n && h.1 < |reg| && Contains(lines[h.0], reg[h.1].pattern)
    ensures forall i, j :: 0 <= i < n && 0 <= j < |reg| && Contains(lines[i], reg[j].pattern) ==>
              (i, j) in Hits(reg, lines, n)
  {
    HitsMembers(reg, lines, n);
    HitsAscending(reg, lines, n);
  }

  /** What a scan result says about the text. */
  ghost predicate Describes(r: ScanResult, s: string, bootSignal: string, reg: seq<ErrorPattern>) {
    var lines := Lines(s);
    && r.bootSignalFound == InSomeLine(s, bootSignal)
    && r.lineCount == |lines|
    && (HitsExact(reg, lines, |lines|); r.errors == Report(reg, lines, Hits(reg, lines, |lines|)))
  }

  lemma ReportOneMore(reg: seq<ErrorPattern>, lines: seq<string>, hits: seq<(nat, nat)>, h: (nat, nat))
    requires InRange(reg, lines, hits) && h.0 < |lines| && h.1 < |reg|
    ensures InRange(reg, lines, hits + [h])
    ensures Report(reg, lines, hits + [h])
            == Report(reg, lines, hits) + [PatternMatch(reg[h.1].pattern, reg[h.1].tag, h.0 + 1, lines[h.0])]
  {
    assert (hits + [h])[..|hits|] == hits;
  }

  lemma LineHitsOneMore(hits: seq<(nat, nat)>, reg: seq<ErrorPattern>, line: string, i: nat, m: nat)
    requires m < |reg|
    ensures hits + LineHits(reg, line, i, m + 1) ==
            if Contains(line, reg[m].pattern) then hits + LineHits(reg, line, i, m) + [(i, m)]
            else hits + LineHits(reg, line, i, m)
  {
  }

  /** One pattern on one line. */
  method TryPattern(reg: seq<ErrorPattern>, lines: seq<string>, i: nat, m: nat, before: seq<PatternMatch>,
                    ghost hits: seq<(nat, nat)>)
    returns (errors: seq<PatternMatch>)
    requires i < |lines| && m < |reg| && InRange(reg, lines, hits) && before == Report(reg, lines, hits)
    ensures var hits' := if Contains(lines[i], reg[m].pattern) then hits + [(i, m)] else hits;
            InRange(reg, lines, hits') && errors == Report(reg, lines, hits')
  {
    errors := before;
    var ep := reg[m];
    if Contains(lines[i], ep.pattern) {
      ReportOneMore(reg, lines, hits, (i, m));
      errors := errors + [PatternMatch(ep.pattern, ep.tag, i + 1, lines[i])];
    }
  }

  /** The loop over the registry for one line. */
  method ScanLine(reg: seq<ErrorPattern>, lines: seq<string>, i: nat, before: seq<PatternMatch>,
                  ghost hits: seq<(nat, nat)>)
    returns (errors: seq<PatternMatch>)
    requires i < |lines| && InRange(reg, lines, hits)
    requires before == Report(reg, lines, hits)
    ensures InRange(reg, lines, hits + LineHits(reg, lines[i], i, |reg|))
    ensures errors == Report(reg, lines, hits + LineHits(reg, lines[i], i, |reg|))
  {
    errors := before;
    assert hits + [] == hits;
    for m := 0 to |reg|
      invariant InRange(reg, lines, hits + LineHits(reg, lines[i], i, m))
      invariant errors == Report(reg, lines, hits + LineHits(reg, lines[i], i, m))
    {
      LineHitsOneMore(hits, reg, lines[i], i, m);
      errors := TryPattern(reg, lines, i, m, errors, hits + LineHits(reg, lines[i], i, m));
    }
  }

  method ScanText(s: string, bootSignal: string, reg: seq<ErrorPattern>) returns (r: ScanResult)
    ensures Describes(r, s, bootSignal, reg)
  {
    var lines := Lines(s);
    var errors: seq<PatternMatch> := [];
    var found, count := false, 0;
    for i := 0 to |lines|
      invariant count == i
      invariant found <==> AnyContains(lines[..i], bootSignal)
      invariant (HitsMembers(reg, lines, i); errors == Report(reg, lines, Hits(reg, lines, i)))
    {
      count := i + 1;
      AnyContainsAppend(lines[..i], lines[i], bootSignal);
      assert lines[..i + 1] == lines[..i] + [lines[i]];
      if Contains(lines[i], bootSignal) {
        found := true;
      }
      HitsMembers(reg, lines, i);
      errors := ScanLine(reg, lines, i, errors, Hits(reg, lines, i));
    }
    assert lines[..|lines|] == lines;
    r := ScanResult(found, errors, count);
  }

  /** `scan_serial_log`; `file` is the contents of the log, if it can be read. */
  method ScanSerialLog(file: Option<string>, bootSignal: string) returns (r: ScanResult)
    ensures file.None? ==> r == ScanResult(false, [], 0)
    ensures file.Some? ==> Describes(r, file.value, bootSignal, ERROR_PATTERNS)
  {
    if file.None? {
      return ScanResult(false, [], 0);
    }
    r := ScanText(file.value, bootSignal, ERROR_PATTERNS);
  }

  // ---------------------------------------------------------------------------------------
  // Line by line against the whole text
  // ---------------------------------------------------------------------------------------

  /** Not empty, no line feed inside and no carriage return at the end. */
  predicate LinePattern(pat: string) {
    pat != "" && '\n' !in pat && pat[|pat| - 1] != '\r'
  }

  lemma Occurrence(s: string, pat: string) returns (i: nat)
    requires Contains(s, pat)
    ensures OccursAt(s, pat, i) && forall j :: i <= j < i + |pat| ==> s[j] == pat[j - i]
  {
    FindFacts(s, pat);
    i := Find(s, pat).value;
    assert forall j :: i <= j < i + |pat| ==> s[j] == s[i..i + |pat|][j - i];
  }

  lemma ChompContains(line: string, pat: string)
    requires LinePattern(pat)
    ensures Contains(Chomp(line), pat) <==> Contains(line, pat)
  {
    var c := Chomp(line);
    if Contains(c, pat) {
      var i := Occurrence(c, pat);
      assert line[i..i + |pat|] == c[i..i + |pat|];
      ContainsAt(line, pat, i);
    }
    if Contains(line, pat) {
      var i := Occurrence(line, pat);
      assert line[i + |pat| - 1] == pat[|pat| - 1];
      assert c[i..i + |pat|] == line[i..i + |pat|];
      ContainsAt(c, pat, i);
    }
  }

  lemma PartsContained(a: string, b: string, pat: string)
    requires Contains(a, pat) || Contains(b, pat)
    ensures Contains(a + ("\n" + b), pat)
  {
    var s := a + ("\n" + b);
    if Contains(a, pat) {
      var i := Occurrence(a, pat);
      assert s[i..i + |pat|] == a[i..i + |pat|];
      ContainsAt(s, pat, i);
    } else {
      var i := Occurrence(b, pat);
      assert s[|a| + 1 + i..|a| + 1 + i + |pat|] == b[i..i + |pat|];
      ContainsAt(s, pat, |a| + 1 + i);
    }
  }

  /** No occurrence runs across a newline. */
  lemma SplitContains(a: string, b: string, pat: string)
    requires LinePattern(pat)
    ensures Contains(a + ("\n" + b), pat) <==> Contains(a, pat) || Contains(b, pat)
  {
    var s := a + ("\n" + b);
    if Contains(s, pat) {
      var i := Occurrence(s, pat);
      assert s[|a|] == '\n' && forall j :: i <= j < i + |pat| ==> s[j] in pat;
      if i + |pat| <= |a| {
        assert a[i..i + |pat|] == s[i..i + |pat|];
        ContainsAt(a, pat, i);
      } else {
        assert |a| < i;
        var k := i - |a| - 1;
        assert s[|a| + 1..][k..k + |pat|] == s[i..i + |pat|];
        ContainsAt(b, pat, k);
      }
    }
    if Contains(a, pat) || Contains(b, pat) {
      PartsContained(a, b, pat);
    }
  }

  lemma AnyContainsCons(l: string, lines: seq<string>, pat: string)
    ensures AnyContains([l] + lines, pat) <==> Contains(l, pat) || AnyContains(lines, pat)
  {
    assert l in [l] + lines && forall k <- lines :: k in [l] + lines;
  }

  lemma {:induction false} LinesAgree(s: string, pat: string)
    requires LinePattern(pat)
    ensures InSomeLine(s, pat) <==> Contains(s, pat)
    decreases |s|
  {
    if '\n' in s {
      var a, t := CutLine(s);
      LinesCons(a, t);
      AnyContainsCons(Chomp(a), Lines(t), pat);
      SplitContains(a, t, pat);
      ChompContains(a, pat);
      LinesAgree(t, pat);
    } else {
      OneLine(s);
      FindFacts(s, pat);
    }
  }

  lemma NoNewlineUntil(s: string)
    ensures '\n' !in s[..Until(s, '\n')] && '\n' !in Chomp(s[..Until(s, '\n')])
    ensures Until(s, '\n') == |s| ==> '\n' !in s
  {
  }

  lemma {:induction false} LinesHaveNoNewline(s: string)
    ensures forall l <- Lines(s) :: '\n' !in l
  {
    if s != "" {
      var n := Until(s, '\n');
      NoNewlineUntil(s);
      if n < |s| {
        LinesHaveNoNewline(s[n + 1..]);
      }
    }
  }

  lemma ContainsChars(s: string, pat: string, c: char)
    requires Contains(s, pat) && c in pat
    ensures c in s && |pat| <= |s|
  {
    var i := Occurrence(s, pat);
    var k :| 0 <= k < |pat| && pat[k] == c;
    assert s[i + k] == pat[k];
  }

  lemma TrailingReturnMissed(pat: string)
    requires pat != "" && '\n' !in pat && pat[|pat| - 1] == '\r'
    ensures Contains(pat + "\n", pat) && !InSomeLine(pat + "\n", pat)
  {
    var s := pat + "\n";
    assert s[0..|pat|] == pat;
    ContainsAt(s, pat, 0);
    assert forall i :: 0 <= i < |pat| ==> s[i] == pat[i] && s[i] in pat;
    UntilAfter(pat, '\n', "");
    assert s == pat + (['\n'] + "");
    assert s[..|pat|] == pat && s[|pat| + 1..] == "";
    assert Lines(s) == [Chomp(pat)];
    if Contains(Chomp(pat), pat) {
      ContainsChars(Chomp(pat), pat, pat[0]);
    }
  }

  /** Scanning line by line and searching the whole text agree on every log exactly for patterns
      that are not empty, contain no line feed and do not end in a carriage return. */
  lemma LinesAgreeIff(pat: string)
    ensures (forall s :: InSomeLine(s, pat) <==> Contains(s, pat)) <==> LinePattern(pat)
  {
    if LinePattern(pat) {
      forall s ensures InSomeLine(s, pat) <==> Contains(s, pat) {
        LinesAgree(s, pat);
      }
    } else if pat == "" {
      assert OccursAt("", pat, 0);
      ContainsAt("", pat, 0);
      assert !InSomeLine("", pat);
    } else if '\n' in pat {
      assert OccursAt(pat, pat, 0);
      ContainsAt(pat, pat, 0);
      LinesHaveNoNewline(pat);
      forall l | l in Lines(pat) ensures !Contains(l, pat) {
        if Contains(l, pat) {
          ContainsChars(l, pat, '\n');
        }
      }
      assert !InSomeLine(pat, pat);
    } else {
      TrailingReturnMissed(pat);
    }
  }

  /** The error list is empty exactly when every registered pattern is absent from the log. */
  lemma NoErrorsIffAbsent(reg: seq<ErrorPattern>, s: string)
    requires forall ep <- reg :: LinePattern(ep.pattern)
    ensures Hits(reg, Lines(s), |Lines(s)|) == [] <==> forall ep <- reg :: !Contains(s, ep.pattern)
  {
    var lines := Lines(s);
    var hits := Hits(reg, lines, |lines|);
    HitsExact(reg, lines, |lines|);
    forall j | 0 <= j < |reg|
      ensures Contains(s, reg[j].pattern) <==> exists i :: 0 <= i < |lines| && (i, j) in hits
    {
      var pat := reg[j].pattern;
      LinesAgree(s, pat);
      if Contains(s, pat) {
        var l :| l in lines && Contains(l, pat);
        var i :| 0 <= i < |lines| && lines[i] == l;
        assert (i, j) in hits;
      }
      if i :| 0 <= i < |lines| && (i, j) in hits {
        assert Contains(lines[i], pat) && lines[i] in lines;
      }
    }
    if hits != [] {
      assert hits[0] in hits && hits[0] == (hits[0].0, hits[0].1);
      assert Contains(s, reg[hits[0].1].pattern);
    }
  }

  /** Pattern text without control characters. */
  predicate Visible(s: string) { s != "" && forall i :: 0 <= i < |s| ==> s[i] >= ' ' }

  lemma VisibleIsLinewise(s: string)
    requires Visible(s)
    ensures LinePattern(s)
  {
  }

  lemma SanitizerPatterns()
    ensures LinePattern("ERROR: AddressSanitizer") && LinePattern("ERROR: LeakSanitizer")
    ensures LinePattern("ERROR: UndefinedBehaviorSanitizer")
  {
    VisibleIsLinewise("ERROR: AddressSanitizer");
    VisibleIsLinewise("ERROR: LeakSanitizer");
    VisibleIsLinewise("ERROR: UndefinedBehaviorSanitizer");
  }

  lemma KernelPatterns()
    ensures LinePattern("Kernel panic") && LinePattern("BUG:") && LinePattern("Oops:")
  {
    VisibleIsLinewise("Kernel panic");
    VisibleIsLinewise("BUG:");
    VisibleIsLinewise("Oops:");
  }

  lemma ProcessPatterns()
    ensures LinePattern("segfault") && LinePattern("SIGABRT") && LinePattern("Assertion")
  {
    VisibleIsLinewise("segfault");
    VisibleIsLinewise("SIGABRT");
    VisibleIsLinewise("Assertion");
  }

  /** The patterns of the registry are of that kind. */
  lemma RegistryIsLinewise(j: nat)
    requires j < |ERROR_PATTERNS|
    ensures LinePattern(ERROR_PATTERNS[j].pattern)
  {
    SanitizerPatterns();
    KernelPatterns();
    ProcessPatterns();
  }
}
