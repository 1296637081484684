/** Runs in the order wlroots keeps: where the focus is, and when that order is needed. */
module WindowFocus {
  import opened Prelude
  import opened Windows

  /** The focus is on the first mapped toplevel of the recency list, which need not be its head:
      a window that was created but not mapped yet sits in front. */
  ghost predicate FocusedFirst<T>(w: World<T>) {
    Consistent(w) && w.focused == FirstIn(w.toplevels, w.mapped)
  }

  lemma {:induction false} FirstInWithout<T>(list: seq<T>, among: set<T>, t: T)
    requires t !in among
    ensures FirstIn(Without(list, t), among) == FirstIn(list, among)
  {
    if list != [] && list[0] != t {
      FirstInWithout(list[1..], among, t);
    }
  }

  lemma {:induction false} FirstInShrunk<T>(list: seq<T>, among: set<T>, t: T)
    requires FirstIn(list, among) != Some(t)
    ensures FirstIn(list, among - {t}) == FirstIn(list, among)
  {
    if list != [] && list[0] !in among {
      FirstInShrunk(list[1..], among, t);
    }
  }

  lemma StepFocusedFirst<T>(w: World<T>, e: Event<T>)
    requires FocusedFirst(w) && Orderly(w, e)
    ensures FocusedFirst(Step(w, e))
    ensures e.Destroy? ==> Step(w, e) == Forget(w, e.t)
  {
    StepConsistent(w, e);
    if w.focused.Some? {
      var k := FirstInAt(w.toplevels, w.mapped);
    }
    match e
    case New(t) =>
    case Unmap(t) =>
      if w.focused != Some(t) {
        FirstInShrunk(w.toplevels, w.mapped, t);
      } else if FirstIn(w.toplevels, w.mapped - {t}).Some? {
        var j := FirstInAt(w.toplevels, w.mapped - {t});
      }
    case Destroy(t) =>
      FirstInWithout(w.toplevels, w.mapped, t);
      assert w.mapped - {t} == w.mapped;
    case _ =>
  }

  /** In every run that keeps the wlroots order the focus is on the first mapped toplevel of the
      recency list, and nowhere exactly when nothing is mapped.  The transfer branch of the
      destroy handler is never taken: destroying only forgets the window. */
  lemma {:induction false} FocusIsFirstMapped<T>(cursor: (real, real), keyboard: bool, es: seq<Event<T>>)
    requires OrderlyRun(Start(cursor, keyboard), es)
    ensures FocusedFirst(Run(Start(cursor, keyboard), es))
    ensures Run(Start(cursor, keyboard), es).focused.None? <==> Run(Start(cursor, keyboard), es).mapped == {}
    ensures es != [] && es[|es| - 1].Destroy? ==>
              Run(Start(cursor, keyboard), es)
              == Forget(Run(Start(cursor, keyboard), es[..|es| - 1]), es[|es| - 1].t)
  {
    var w := Run(Start(cursor, keyboard), es);
    if es != [] {
      FocusIsFirstMapped(cursor, keyboard, es[..|es| - 1]);
      StepFocusedFirst(Run(Start(cursor, keyboard), es[..|es| - 1]), es[|es| - 1]);
    }
    FirstInNone(w.toplevels, w.mapped);
  }

  /** The focused toplevel is the head of the list exactly when the head is mapped. */
  lemma HeadIsFocusedIff<T>(cursor: (real, real), keyboard: bool, es: seq<Event<T>>)
    requires OrderlyRun(Start(cursor, keyboard), es)
    requires Run(Start(cursor, keyboard), es).toplevels != []
    ensures var w := Run(Start(cursor, keyboard), es);
            w.focused == Some(w.toplevels[0]) <==> w.toplevels[0] in w.mapped
  {
    var w := Run(Start(cursor, keyboard), es);
    FocusIsFirstMapped(cursor, keyboard, es);
    if FirstIn(w.toplevels, w.mapped).Some? {
      var k := FirstInAt(w.toplevels, w.mapped);
    }
  }

  /** It need not be: a window is created in front of the focused one. */
  lemma HeadNeedNotBeFocused()
    ensures var es := [New(0)] + [Map(0)] + [New(1)];
            var w := Run(Start((0.0, 0.0), true), es);
            OrderlyRun(Start((0.0, 0.0), true), es) && w.toplevels == [1, 0] && w.focused == Some(0)
  {
    var w: World<int> := Start((0.0, 0.0), true);
    RunOneMore(w, [], New(0));
    assert [] + [New(0)] == [New(0)];
    RunOneMore(w, [New(0)], Map(0));
    RunOneMore(w, [New(0)] + [Map(0)], New(1));
  }

  /** The transfer branch of the destroy handler: the first other toplevel gets the focus. */
  lemma TransferOnDestroy<T>(w: World<T>, t: T)
    requires t in w.toplevels && Distinct(w.toplevels) && w.focused == Some(t)
    requires Without(w.toplevels, t) != []
    ensures Step(w, Destroy(t)) == Forget(Focus(w, Some(Without(w.toplevels, t)[0])), t)
  {
    WithoutFacts(w.toplevels, t);
    FirstInWithout(w.toplevels, Elems(w.toplevels) - {t}, t);
  }

  lemma TransferTarget<T>(w: World<T>, t: T, u: T)
    requires w.focused == Some(t) && u != t
    ensures var w' := Forget(Focus(w, Some(u)), t);
            w'.focused == FirstIn(w'.toplevels, w'.mapped) <==> u in w.mapped
  {
    var w' := Forget(Focus(w, Some(u)), t);
    assert w'.toplevels == [u] + Without(Without(w.toplevels, u), t);
    if FirstIn(w'.toplevels, w'.mapped).Some? {
      var k := FirstInAt(w'.toplevels, w'.mapped);
    }
  }

  /** Outside that order the claim can fail, because the scan in the destroy handler does not
      look at the mapped flag.  It survives the destruction of `t` exactly when `t` was not
      focused or the first other toplevel on the list, if there is one, is mapped. */
  lemma DestroyKeepsFocusedFirstIff<T>(w: World<T>, t: T)
    requires FocusedFirst(w) && t in w.toplevels
    ensures FocusedFirst(Step(w, Destroy(t))) <==>
              w.focused != Some(t)
              || Without(w.toplevels, t) == []
              || Without(w.toplevels, t)[0] in w.mapped
  {
    var rest := Without(w.toplevels, t);
    if w.focused == Some(t) && rest != [] {
      WithoutFacts(w.toplevels, t);
      assert rest[0] in rest;
      TransferOnDestroy(w, t);
      TransferTarget(w, t, rest[0]);
      DestroyConsistent(w, t);
    } else {
      DestroyConsistent(w, t);
      FirstInWithout(w.toplevels, w.mapped - {t}, t);
      if w.focused != Some(t) {
        FirstInShrunk(w.toplevels, w.mapped, t);
      } else {
        WithoutFacts(w.toplevels, t);
        FirstInNone(w.toplevels, Elems(w.toplevels) - {t});
      }
    }
  }

  /** A concrete run that breaks it: window 1 exists unmapped when the focused window 0 is
      destroyed while mapped, and the focus lands on a window that is not shown. */
  lemma DestroyWhileMappedCanFail()
    ensures var es := [New(0)] + [Map(0)] + [New(1)] + [Destroy(0)];
            PossibleRun(Start((0.0, 0.0), true), es)
            && Run(Start((0.0, 0.0), true), es).mapped == {}
            && Run(Start((0.0, 0.0), true), es).focused == Some(1)
  {
    var w: World<int> := Start((0.0, 0.0), true);
    RunOneMore(w, [], New(0));
    assert [] + [New(0)] == [New(0)];
    RunOneMore(w, [New(0)], Map(0));
    RunOneMore(w, [New(0)] + [Map(0)], New(1));
    RunOneMore(w, [New(0)] + [Map(0)] + [New(1)], Destroy(0));
    var w3 := Run(w, [New(0)] + [Map(0)] + [New(1)]);
    assert w3.toplevels == [1, 0] && w3.mapped == {0} && w3.focused == Some(0);
    assert FirstIn(w3.toplevels, Elems(w3.toplevels) - {0}) == Some(1);
  }
}
