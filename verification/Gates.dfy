/** Results of quality gates: how they are built, summed up and reported as TAP. */
module Gates {
  import opened Prelude

  datatype Assertion = Assertion(description: string, passed: bool, detail: Option<string>)

  datatype GateResult = GateResult(
    gate: string, status: string, assertions: seq<Assertion>, passed: nat, failed: nat, error: Option<string>)

  /** What running a gate under its timeout comes to. */
  datatype Outcome = Completed(assertions: seq<Assertion>) | Errored(message: string) | TimedOut(message: string)

  function Count(assertions: seq<Assertion>, passed: bool): (n: nat)
    ensures n <= |assertions|
  {
    if assertions == [] then 0
    else Count(assertions[1..], passed) + if assertions[0].passed == passed then 1 else 0
  }

  /** The tail of `run_gate_inner` and the match in `run_gate`. */
  function RunGate(gate: string, o: Outcome): GateResult {
    match o
    case Completed(assertions) =>
      var failed := Count(assertions, false);
      GateResult(gate, if failed == 0 then "passed" else "failed", assertions, Count(assertions, true), failed, None)
    case Errored(message) => GateResult(gate, "error", [], 0, 0, Some(message))
    case TimedOut(message) => GateResult(gate, "timeout", [], 0, 0, Some(message))
  }

  lemma {:induction false} EveryAssertionCounts(assertions: seq<Assertion>)
    ensures Count(assertions, true) + Count(assertions, false) == |assertions|
    ensures Count(assertions, false) == 0 <==> forall a <- assertions :: a.passed
  {
    if assertions != [] {
      EveryAssertionCounts(assertions[1..]);
      assert assertions == [assertions[0]] + assertions[1..];
    }
  }

  /** Whether each assertion passed. */
  function Flags(assertions: seq<Assertion>): seq<bool> {
    seq(|assertions|, i requires 0 <= i < |assertions| => assertions[i].passed)
  }

  /** The count is how many there are. */
  lemma {:induction false} CountIs(assertions: seq<Assertion>, passed: bool)
    ensures Count(assertions, passed) == multiset(Flags(assertions))[passed]
  {
    if assertions != [] {
      CountIs(assertions[1..], passed);
      assert Flags(assertions) == [assertions[0].passed] + Flags(assertions[1..]);
    }
  }

  ghost predicate Built(r: GateResult) { exists o :: r == RunGate(r.gate, o) }

  lemma StatusesDiffer()
    ensures "passed" != "failed" && "passed" != "timeout" && "passed" != "error"
    ensures "failed" != "timeout" && "failed" != "error" && "timeout" != "error"
  {
    assert "passed"[0] != "failed"[0] && "passed"[0] != "timeout"[0] && "passed"[0] != "error"[0];
    assert "failed"[0] != "timeout"[0] && "failed"[0] != "error"[0] && "timeout"[0] != "error"[0];
  }

  /** The counts are those of the passing and the failing assertions and add up to all of them; the
      status is "passed" exactly for a completed gate without a failure, and tells apart the gates
      that completed with one, timed out, or could not be run, whose message is kept. */
  lemma CountsAddUp(gate: string, o: Outcome)
    ensures var r := RunGate(gate, o);
            && r.gate == gate && r.assertions == (if o.Completed? then o.assertions else [])
            && r.passed == multiset(Flags(r.assertions))[true] && r.failed == multiset(Flags(r.assertions))[false]
            && r.passed + r.failed == |r.assertions|
            && (r.status == "passed" <==> o.Completed? && r.failed == 0)
            && (r.status == "passed" <==> o.Completed? && forall a <- o.assertions :: a.passed)
            && (r.status == "failed" <==> o.Completed? && exists a <- o.assertions :: !a.passed)
            && (r.status == "timeout" <==> o.TimedOut?) && (r.status == "error" <==> o.Errored?)
            && r.error == (match o case Completed(_) => None case Errored(m) => Some(m) case TimedOut(m) => Some(m))
  {
    StatusesDiffer();
    if o.Completed? {
      EveryAssertionCounts(o.assertions);
      CountIs(o.assertions, true);
      CountIs(o.assertions, false);
    }
  }

  function WithStatus(results: seq<GateResult>, status: string): nat {
    if results == [] then 0
    else WithStatus(results[1..], status) + if results[0].status == status then 1 else 0
  }

  /** `summary`: total, passed, failed, timeout, error. */
  function Summary(results: seq<GateResult>): (nat, nat, nat, nat, nat) {
    (|results|, WithStatus(results, "passed"), WithStatus(results, "failed"),
     WithStatus(results, "timeout"), WithStatus(results, "error"))
  }

  function Statuses(results: seq<GateResult>): seq<string> {
    seq(|results|, i requires 0 <= i < |results| => results[i].status)
  }

  lemma {:induction false} WithStatusIs(results: seq<GateResult>, status: string)
    ensures WithStatus(results, status) == multiset(Statuses(results))[status]
  {
    if results != [] {
      WithStatusIs(results[1..], status);
      assert Statuses(results) == [results[0].status] + Statuses(results[1..]);
    }
  }

  lemma {:induction false} StatusesAddUp(results: seq<GateResult>)
    requires forall r <- results :: Built(r)
    ensures WithStatus(results, "passed") + WithStatus(results, "failed") + WithStatus(results, "timeout")
            + WithStatus(results, "error") == |results|
  {
    if results != [] {
      var r := results[0];
      assert r in results;
      var o :| r == RunGate(r.gate, o);
      StatusesDiffer();
      StatusesAddUp(results[1..]);
    }
  }

  /** Each column counts the gates of its status, and no gate is lost or counted twice. */
  lemma SummaryAddsUp(results: seq<GateResult>)
    requires forall r <- results :: Built(r)
    ensures var (total, passed, failed, timeout, error) := Summary(results);
            var all := multiset(Statuses(results));
            && total == |results| && passed == all["passed"] && failed == all["failed"]
            && timeout == all["timeout"] && error == all["error"]
            && passed + failed + timeout + error == total
  {
    StatusesAddUp(results);
    WithStatusIs(results, "passed");
    WithStatusIs(results, "failed");
    WithStatusIs(results, "timeout");
    WithStatusIs(results, "error");
  }

  // ---------------------------------------------------------------------------------------
  // TAP
  // ---------------------------------------------------------------------------------------

  /** A line of the report before the lines are joined. */
  datatype Line =
    | Version
    | Plan(count: nat)
    | Test(number: nat, ok: bool, gate: string, description: string)
    | DetailStart
    | DetailMessage(message: string)
    | DetailEnd

  function Tagged(gate: string, assertions: seq<Assertion>): seq<(string, Assertion)> {
    if assertions == [] then []
    else Tagged(gate, assertions[..|assertions| - 1]) + [(gate, assertions[|assertions| - 1])]
  }

  /** All assertions with the gates they belong to, in order. */
  function Flat(results: seq<GateResult>): seq<(string, Assertion)> {
    if results == [] then []
    else Flat(results[..|results| - 1]) + Tagged(results[|results| - 1].gate, results[|results| - 1].assertions)
  }

  function Tests(lines: seq<Line>): seq<Line> {
    if lines == [] then []
    else Tests(lines[..|lines| - 1]) + if lines[|lines| - 1].Test? then [lines[|lines| - 1]] else []
  }

  lemma {:induction false} TestsAppend(a: seq<Line>, b: seq<Line>)
    ensures Tests(a + b) == Tests(a) + Tests(b)
  {
    if b == [] {
      assert a + b == a;
    } else {
      assert (a + b)[..|a + b| - 1] == a + b[..|b| - 1];
      TestsAppend(a, b[..|b| - 1]);
    }
  }

  /** The test lines report the assertions one for one, numbered from 1. */
  ghost predicate Numbered(tests: seq<Line>, flat: seq<(string, Assertion)>) {
    && |tests| == |flat|
    && forall k :: 0 <= k < |flat| ==>
         tests[k] == Test(k + 1, flat[k].1.passed, flat[k].0, flat[k].1.description)
  }

  /** The detail of a test. */
  function DetailLines(a: Assertion): seq<Line> {
    match a.detail
    case None => []
    case Some(detail) => [DetailStart, DetailMessage(detail), DetailEnd]
  }

  /** At `p` stands a test line, followed by the detail of its assertion, if it has one, and by
      nothing else up to the next test line or the end of the report. */
  ghost predicate FollowedByDetail(lines: seq<Line>, flat: seq<(string, Assertion)>, p: nat)
    requires p < |lines| && lines[p].Test?
  {
    && 0 < lines[p].number <= |flat|
    && var detail := DetailLines(flat[lines[p].number - 1].1);
       var next := p + 1 + |detail|;
       next <= |lines| && lines[p + 1..next] == detail && (next < |lines| ==> lines[next].Test?)
  }

  /** Every test line is, and the first follows the plan. */
  ghost predicate Detailed(lines: seq<Line>, flat: seq<(string, Assertion)>) {
    && (|lines| > 2 ==> lines[2].Test?)
    && forall p: nat :: p < |lines| && lines[p].Test? ==> FollowedByDetail(lines, flat, p)
  }

  lemma SliceOfFront(a: seq<Line>, b: seq<Line>, i: nat, j: nat)
    requires i <= j <= |a|
    ensures (a + b)[i..j] == a[i..j]
  {
  }

  lemma StillFollowed(lines: seq<Line>, flat: seq<(string, Assertion)>, x: (string, Assertion), more: seq<Line>, p: nat)
    requires p < |lines| && lines[p].Test? && FollowedByDetail(lines, flat, p) && more != [] && more[0].Test?
    ensures FollowedByDetail(lines + more, flat + [x], p)
  {
    var next := p + 1 + |DetailLines(flat[lines[p].number - 1].1)|;
    SliceOfFront(lines, more, p + 1, next);
    assert (flat + [x])[lines[p].number - 1] == flat[lines[p].number - 1];
  }

  lemma LastFollowed(lines: seq<Line>, flat: seq<(string, Assertion)>, x: (string, Assertion), test: Line)
    requires test.Test? && test.number == |flat| + 1
    ensures FollowedByDetail(lines + ([test] + DetailLines(x.1)), flat + [x], |lines|)
  {
    var lines' := lines + ([test] + DetailLines(x.1));
    assert lines'[|lines| + 1..|lines'|] == DetailLines(x.1);
  }

  lemma DetailedOneMore(lines: seq<Line>, flat: seq<(string, Assertion)>, x: (string, Assertion), test: Line)
    requires |lines| >= 2 && Detailed(lines, flat) && test.Test? && test.number == |flat| + 1
    ensures Detailed(lines + ([test] + DetailLines(x.1)), flat + [x])
  {
    var more := [test] + DetailLines(x.1);
    var lines' := lines + more;
    forall p: nat | p < |lines'| && lines'[p].Test? ensures FollowedByDetail(lines', flat + [x], p) {
      if p < |lines| {
        StillFollowed(lines, flat, x, more, p);
      } else {
        assert lines'[p] == more[p - |lines|];
        LastFollowed(lines, flat, x, test);
      }
    }
  }

  ghost predicate Reported(lines: seq<Line>, flat: seq<(string, Assertion)>) {
    |lines| >= 2 && Numbered(Tests(lines), flat) && Detailed(lines, flat)
  }

  lemma NothingReported(total: nat)
    ensures Reported([Version, Plan(total)], [])
  {
    var lines := [Version, Plan(total)];
    assert lines[..1] == [Version] && [Version][..0] == [];
    assert Tests(lines) == [];
  }

  lemma TaggedOneMore(flat: seq<(string, Assertion)>, gate: string, assertions: seq<Assertion>, j: nat)
    requires j < |assertions|
    ensures flat + Tagged(gate, assertions[..j + 1]) == flat + Tagged(gate, assertions[..j]) + [(gate, assertions[j])]
  {
    assert assertions[..j + 1][..j] == assertions[..j];
  }

  lemma NumberedOneMore(tests: seq<Line>, flat: seq<(string, Assertion)>, gate: string, a: Assertion)
    requires Numbered(tests, flat)
    ensures Numbered(tests + [Test(|flat| + 1, a.passed, gate, a.description)], flat + [(gate, a)])
  {
  }

  lemma {:induction false} NoTests(lines: seq<Line>)
    requires forall l <- lines :: !l.Test?
    ensures Tests(lines) == []
  {
    if lines != [] {
      NoTests(lines[..|lines| - 1]);
    }
  }

  /** A test line and the detail lines under it. */
  lemma OneTest(lines: seq<Line>, test: Line, details: seq<Line>)
    requires test.Test? && forall l <- details :: !l.Test?
    ensures Tests(lines + ([test] + details)) == Tests(lines) + [test]
  {
    TestsAppend(lines, [test] + details);
    TestsAppend([test], details);
    NoTests(details);
    assert [test][..0] == [];
  }

  lemma ReportedOneMore(lines: seq<Line>, flat: seq<(string, Assertion)>, gate: string, a: Assertion)
    requires Reported(lines, flat)
    ensures var test := Test(|flat| + 1, a.passed, gate, a.description);
            Reported(lines + ([test] + DetailLines(a)), flat + [(gate, a)])
  {
    var test := Test(|flat| + 1, a.passed, gate, a.description);
    OneTest(lines, test, DetailLines(a));
    NumberedOneMore(Tests(lines), flat, gate, a);
    DetailedOneMore(lines, flat, (gate, a), test);
  }

  /** One assertion: its test line and its detail. */
  method ReportAssertion(gate: string, a: Assertion, before: seq<Line>, num: nat, ghost flat: seq<(string, Assertion)>)
    returns (lines: seq<Line>)
    requires num == |flat| + 1 && Reported(before, flat)
    ensures before <= lines && Reported(lines, flat + [(gate, a)])
  {
    var details := [];
    if a.detail.Some? {
      details := [DetailStart, DetailMessage(a.detail.value), DetailEnd];
    }
    ReportedOneMore(before, flat, gate, a);
    lines := before + ([Test(num, a.passed, gate, a.description)] + details);
  }

  /** The loop over the assertions of one gate. */
  method ReportGate(r: GateResult, before: seq<Line>, start: nat, ghost flat: seq<(string, Assertion)>)
    returns (lines: seq<Line>, num: nat)
    requires start == |flat| && Reported(before, flat)
    ensures before <= lines && num == |flat + Tagged(r.gate, r.assertions)|
    ensures Reported(lines, flat + Tagged(r.gate, r.assertions))
  {
    lines, num := before, start;
    assert flat + [] == flat;
    for j := 0 to |r.assertions|
      invariant before <= lines && num == |flat + Tagged(r.gate, r.assertions[..j])|
      invariant Reported(lines, flat + Tagged(r.gate, r.assertions[..j]))
    {
      num := num + 1;
      TaggedOneMore(flat, r.gate, r.assertions, j);
      lines := ReportAssertion(r.gate, r.assertions[j], lines, num, flat + Tagged(r.gate, r.assertions[..j]));
    }
    assert r.assertions[..|r.assertions|] == r.assertions;
  }

  lemma {:induction false} TaggedLength(gate: string, assertions: seq<Assertion>)
    ensures |Tagged(gate, assertions)| == |assertions|
  {
    if assertions != [] {
      TaggedLength(gate, assertions[..|assertions| - 1]);
    }
  }

  /** The sum of the assertion counts. */
  method Total(results: seq<GateResult>) returns (total: nat)
    ensures total == |Flat(results)|
  {
    total := 0;
    for i := 0 to |results|
      invariant total == |Flat(results[..i])|
    {
      TaggedLength(results[i].gate, results[i].assertions);
      total := total + |results[i].assertions|;
      assert results[..i + 1][..i] == results[..i];
    }
    assert results[..|results|] == results;
  }

  /** `to_tap`: the plan announces as many tests as follow; the test lines are numbered 1 to that
      count, one for each assertion of each gate, in order; and each is followed by the detail of
      its assertion and by nothing else. */
  method ToTap(results: seq<GateResult>) returns (lines: seq<Line>)
    ensures |lines| >= 2 && lines[0] == Version && lines[1] == Plan(|Tests(lines)|)
    ensures Numbered(Tests(lines), Flat(results)) && Detailed(lines, Flat(results))
  {
    var total := Total(results);
    lines := [Version, Plan(total)];
    var num := 0;
    NothingReported(total);
    for i := 0 to |results|
      invariant num == |Flat(results[..i])| && Reported(lines, Flat(results[..i]))
      invariant [Version, Plan(total)] <= lines
    {
      lines, num := ReportGate(results[i], lines, num, Flat(results[..i]));
      assert results[..i + 1][..i] == results[..i];
    }
    assert results[..|results|] == results;
  }
}
