/** Which windows are shown, and which gets the focus, read off the events of a run alone. */
module WindowShown {
  import opened Prelude
  import opened Windows
  import opened WindowFocus

  /** The `i`th event maps `t`, and no later one unmaps or destroys it. */
  ghost predicate ShownSince<T>(es: seq<Event<T>>, t: T, i: nat) {
    && i < |es| && es[i] == Map(t)
    && forall j :: i < j < |es| ==> es[j] != Unmap(t) && es[j] != Destroy(t)
  }

  ghost predicate Shown<T>(es: seq<Event<T>>, t: T) { exists i: nat :: ShownSince(es, t, i) }

  lemma ShownOneMore<T>(es: seq<Event<T>>, e: Event<T>, t: T)
    ensures Shown(es + [e], t) <==> e == Map(t) || (Shown(es, t) && e != Unmap(t) && e != Destroy(t))
  {
    var n := |es|;
    forall i: nat | i < n
      ensures ShownSince(es + [e], t, i) <==> ShownSince(es, t, i) && e != Unmap(t) && e != Destroy(t)
    {
      if ShownSince(es + [e], t, i) {
        assert (es + [e])[n] == e;
        forall j | i < j < n ensures es[j] != Unmap(t) && es[j] != Destroy(t) {
          assert (es + [e])[j] == es[j];
        }
      }
    }
    assert ShownSince(es + [e], t, n) <==> e == Map(t);
  }

  lemma StepMapped<T>(w: World<T>, e: Event<T>)
    ensures Step(w, e).mapped ==
            match e case Map(t) => w.mapped + {t}
                    case Unmap(t) => w.mapped - {t}
                    case Destroy(t) => w.mapped - {t}
                    case _ => w.mapped
  {
  }

  /** The mapped windows are the shown ones. */
  lemma {:induction false} MappedIffShown<T>(cursor: (real, real), keyboard: bool, es: seq<Event<T>>, t: T)
    ensures t in Run(Start(cursor, keyboard), es).mapped <==> Shown(es, t)
  {
    if es != [] {
      var front, e := es[..|es| - 1], es[|es| - 1];
      assert es == front + [e];
      MappedIffShown(cursor, keyboard, front, t);
      StepMapped(Run(Start(cursor, keyboard), front), e);
      ShownOneMore(front, e, t);
    }
  }

  // ---------------------------------------------------------------------------------------
  // Who has the focus
  // ---------------------------------------------------------------------------------------

  /** Mapping a window and clicking on it ask for the focus. */
  predicate Asks<T(==)>(e: Event<T>, t: T) { e == Map(t) || e == Press(Some(t)) }

  /** Number of the last event that asked for `t`, -1 if there is none. */
  function LastAsk<T(==)>(es: seq<Event<T>>, t: T): int {
    if es == [] then -1
    else if Asks(es[|es| - 1], t) then |es| - 1
    else LastAsk(es[..|es| - 1], t)
  }

  lemma {:induction false} LastAskBound<T>(es: seq<Event<T>>, t: T)
    ensures -1 <= LastAsk(es, t) < |es|
  {
    if es != [] {
      LastAskBound(es[..|es| - 1], t);
    }
  }

  lemma LastAskOneMore<T>(es: seq<Event<T>>, e: Event<T>, t: T)
    ensures LastAsk(es + [e], t) == if Asks(e, t) then |es| else LastAsk(es, t)
    ensures LastAsk(es, t) < |es|
  {
    assert (es + [e])[..|es|] == es;
    LastAskBound(es, t);
  }

  /** Among `some` the list is in reverse order of their last asking. */
  ghost predicate LastAskedFirst<T>(list: seq<T>, some: set<T>, es: seq<Event<T>>) {
    forall i, j :: 0 <= i < j < |list| && list[i] in some && list[j] in some ==>
      LastAsk(es, list[j]) < LastAsk(es, list[i])
  }

  lemma LastAskedWithout<T>(list: seq<T>, some: set<T>, es: seq<Event<T>>, t: T)
    requires Distinct(list) && LastAskedFirst(list, some, es)
    ensures LastAskedFirst(Without(list, t), some, es)
  {
    if t in list {
      var k :| 0 <= k < |list| && list[k] == t;
      WithoutAt(list, k);
      var rest := Without(list, t);
      assert forall i :: 0 <= i < |rest| ==> rest[i] == list[if i < k then i else i + 1];
    } else {
      WithoutAbsent(list, t);
    }
  }

  lemma LastAskedToFront<T>(list: seq<T>, some: set<T>, es: seq<Event<T>>, t: T)
    requires Distinct(list) && LastAskedFirst(list, some, es)
    requires forall u <- list :: u in some && u != t ==> LastAsk(es, u) < LastAsk(es, t)
    ensures LastAskedFirst([t] + Without(list, t), some, es)
  {
    LastAskedWithout(list, some, es, t);
    WithoutFacts(list, t);
    var rest := Without(list, t);
    assert forall i :: 0 <= i < |rest| ==> rest[i] in rest;
  }

  /** The first among them is the last that asked. */
  lemma FirstAskedLast<T>(list: seq<T>, some: set<T>, es: seq<Event<T>>, t: T)
    requires LastAskedFirst(list, some, es) && FirstIn(list, some) == Some(t)
    ensures t in some && forall u <- list :: u in some && u != t ==> LastAsk(es, u) < LastAsk(es, t)
  {
    var k := FirstInAt(list, some);
    forall u | u in list && u in some && u != t ensures LastAsk(es, u) < LastAsk(es, t) {
      var j :| 0 <= j < |list| && list[j] == u;
      assert k < j;
    }
  }

  /** An event that asks for `t`, if for anything, does not change the order of the others. */
  lemma AskedOnce<T>(list: seq<T>, some: set<T>, es: seq<Event<T>>, e: Event<T>, t: T)
    requires LastAskedFirst(list, some, es) && t !in some && forall u :: Asks(e, u) ==> u == t
    ensures LastAskedFirst(list, some, es + [e])
  {
    forall u ensures u != t ==> LastAsk(es + [e], u) == LastAsk(es, u) {
      LastAskOneMore(es, e, u);
    }
  }

  lemma AskedNow<T>(es: seq<Event<T>>, e: Event<T>, t: T)
    requires Asks(e, t)
    ensures forall u :: u != t ==> LastAsk(es + [e], u) < LastAsk(es + [e], t)
  {
    LastAskOneMore(es, e, t);
    forall u | u != t ensures LastAsk(es + [e], u) < LastAsk(es + [e], t) {
      LastAskOneMore(es, e, u);
    }
  }

  lemma NotAsked<T>(list: seq<T>, some: set<T>, es: seq<Event<T>>, e: Event<T>)
    requires LastAskedFirst(list, some, es) && forall u :: !Asks(e, u)
    ensures LastAskedFirst(list, some, es + [e])
  {
    forall u ensures LastAsk(es + [e], u) == LastAsk(es, u) {
      LastAskOneMore(es, e, u);
    }
  }

  lemma AskedToFront<T>(list: seq<T>, others: set<T>, es: seq<Event<T>>, t: T)
    requires Distinct(list) && LastAskedFirst(list, others, es) && t !in others
    requires forall u :: u != t ==> LastAsk(es, u) < LastAsk(es, t)
    ensures LastAskedFirst([t] + Without(list, t), others + {t}, es)
  {
    var rest := Without(list, t);
    LastAskedWithout(list, others, es, t);
    WithoutFacts(list, t);
    assert forall i :: 0 <= i < |rest| ==> rest[i] in rest;
  }

  lemma AskedStays<T>(list: seq<T>, some: set<T>, es: seq<Event<T>>, t: T)
    requires LastAskedFirst(list, some - {t}, es) && FirstIn(list, some) == Some(t)
    requires Distinct(list) && forall u :: u != t ==> LastAsk(es, u) < LastAsk(es, t)
    ensures LastAskedFirst(list, some, es)
  {
    var k := FirstInAt(list, some);
  }

  lemma AskStep<T>(w: World<T>, es: seq<Event<T>>, e: Event<T>, t: T)
    requires FocusedFirst(w) && Orderly(w, e) && Asks(e, t) && LastAskedFirst(w.toplevels, w.mapped, es)
    ensures LastAskedFirst(Step(w, e).toplevels, Step(w, e).mapped, es + [e])
  {
    var others := w.mapped - {t};
    AskedOnce(w.toplevels, others, es, e, t);
    AskedNow(es, e, t);
    if w.focused == Some(t) {
      AskedStays(w.toplevels, w.mapped, es + [e], t);
      var k := FirstInAt(w.toplevels, w.mapped);
    } else {
      AskedToFront(w.toplevels, others, es + [e], t);
      assert Step(w, e).mapped == others + {t};
    }
  }

  lemma UnmapStep<T>(w: World<T>, es: seq<Event<T>>, t: T)
    requires FocusedFirst(w) && t in w.mapped && LastAskedFirst(w.toplevels, w.mapped, es)
    ensures LastAskedFirst(Step(w, Unmap(t)).toplevels, Step(w, Unmap(t)).mapped, es)
  {
    var left := w.mapped - {t};
    if w.focused == Some(t) && FirstIn(w.toplevels, left).Some? {
      var u := FirstIn(w.toplevels, left).value;
      FirstAskedLast(w.toplevels, left, es, u);
      LastAskedToFront(w.toplevels, left, es, u);
    }
  }

  lemma StepLastAsked<T>(w: World<T>, es: seq<Event<T>>, e: Event<T>)
    requires FocusedFirst(w) && Orderly(w, e) && LastAskedFirst(w.toplevels, w.mapped, es)
    ensures LastAskedFirst(Step(w, e).toplevels, Step(w, e).mapped, es + [e])
  {
    match e
    case Map(t) => AskStep(w, es, e, t);
    case Press(hit) =>
      if hit.Some? {
        AskStep(w, es, e, hit.value);
      } else {
        NotAsked(w.toplevels, w.mapped, es, e);
      }
    case Unmap(t) =>
      UnmapStep(w, es, t);
      NotAsked(Step(w, e).toplevels, Step(w, e).mapped, es, e);
    case Destroy(t) =>
      StepFocusedFirst(w, e);
      LastAskedWithout(w.toplevels, w.mapped, es, t);
      assert w.mapped - {t} == w.mapped;
      NotAsked(Step(w, e).toplevels, Step(w, e).mapped, es, e);
    case New(t) =>
      NotAsked(w.toplevels, w.mapped, es, e);
    case _ =>
      NotAsked(w.toplevels, w.mapped, es, e);
  }

  lemma {:induction false} RunLastAsked<T>(cursor: (real, real), keyboard: bool, es: seq<Event<T>>)
    requires OrderlyRun(Start(cursor, keyboard), es)
    ensures var w := Run(Start(cursor, keyboard), es); LastAskedFirst(w.toplevels, w.mapped, es)
  {
    if es != [] {
      var front, e := es[..|es| - 1], es[|es| - 1];
      assert es == front + [e];
      RunLastAsked(cursor, keyboard, front);
      FocusIsFirstMapped(cursor, keyboard, front);
      StepLastAsked(Run(Start(cursor, keyboard), front), front, e);
    }
  }

  /** In every orderly run the focus is on the shown window that was mapped or clicked last, and
      nowhere exactly when no window is shown. */
  lemma FocusIsLastAsked<T>(cursor: (real, real), keyboard: bool, es: seq<Event<T>>)
    requires OrderlyRun(Start(cursor, keyboard), es)
    ensures match Run(Start(cursor, keyboard), es).focused
            case None => forall t :: !Shown(es, t)
            case Some(t) => Shown(es, t) && forall u :: Shown(es, u) && u != t ==> LastAsk(es, u) < LastAsk(es, t)
  {
    var w := Run(Start(cursor, keyboard), es);
    FocusIsFirstMapped(cursor, keyboard, es);
    RunLastAsked(cursor, keyboard, es);
    forall t ensures t in w.mapped <==> Shown(es, t) {
      MappedIffShown(cursor, keyboard, es, t);
    }
    if w.focused.Some? {
      FirstAskedLast(w.toplevels, w.mapped, es, w.focused.value);
    }
  }

  /** Unmapping takes the focus away from the window in every run, orderly or not; and the focus
      stays where it was, or goes to the first other window of the list that is shown. */
  lemma UnmapTakesFocus<T>(cursor: (real, real), keyboard: bool, es: seq<Event<T>>, t: T)
    requires PossibleRun(Start(cursor, keyboard), es)
    ensures var w, w' := Run(Start(cursor, keyboard), es), Run(Start(cursor, keyboard), es + [Unmap(t)]);
            && w'.focused != Some(t)
            && (w.focused != Some(t) ==> w'.focused == w.focused)
            && (w.focused == Some(t) ==>
                  match w'.focused
                  case None => forall u <- w.toplevels :: u == t || !Shown(es, u)
                  case Some(u) =>
                    exists k :: 0 <= k < |w.toplevels| && w.toplevels[k] == u && u != t && Shown(es, u)
                                && forall i :: 0 <= i < k ==> w.toplevels[i] == t || !Shown(es, w.toplevels[i]))
  {
    var w := Run(Start(cursor, keyboard), es);
    RunOneMore(Start(cursor, keyboard), es, Unmap(t));
    var left := w.mapped - {t};
    forall u ensures u in left <==> u != t && Shown(es, u) {
      MappedIffShown(cursor, keyboard, es, u);
    }
    FirstInNone(w.toplevels, left);
    if FirstIn(w.toplevels, left).Some? {
      var k := FirstInAt(w.toplevels, left);
    }
  }
}
