/** The recency list as a function of the past: what the list and the focus say about the
    events that led to them. */
module WindowHistory {
  import opened Prelude
  import opened Windows
  import opened WindowFocus
  import opened WindowShown

  /** A window is touched when it is created and when the focus changes to it.  Asking again for
      the focus it already has is not a touch. */
  datatype Touch<T> = Created(t: T) | GotFocus(t: T)

  /** Touches are read off the `focused` field alone, before and after an event. */
  function TouchesOf<T(==)>(before: World<T>, e: Event<T>, after: World<T>): seq<Touch<T>> {
    (if e.New? then [Created(e.t)] else []) +
    (if after.focused != before.focused && after.focused.Some? then [GotFocus(after.focused.value)] else [])
  }

  function Touches<T(==)>(w: World<T>, es: seq<Event<T>>): seq<Touch<T>> {
    if es == [] then []
    else
      var before := Run(w, es[..|es| - 1]);
      Touches(w, es[..|es| - 1]) + TouchesOf(before, es[|es| - 1], Step(before, es[|es| - 1]))
  }

  /** The windows created and not destroyed yet. */
  function Live<T(==)>(es: seq<Event<T>>): set<T> {
    if es == [] then {}
    else
      var live := Live(es[..|es| - 1]);
      match es[|es| - 1]
      case New(t) => live + {t}
      case Destroy(t) => live - {t}
      case _ => live
  }

  /** Position of the latest touch of `t`, -1 if there is none. */
  function LastTouch<T(==)>(h: seq<Touch<T>>, t: T): int {
    if h == [] then -1
    else if h[|h| - 1].t == t then |h| - 1
    else LastTouch(h[..|h| - 1], t)
  }

  /** Position of the latest time the focus changed to `t`, -1 if it never did. */
  function LastFocus<T(==)>(h: seq<Touch<T>>, t: T): int {
    if h == [] then -1
    else if h[|h| - 1] == GotFocus(t) then |h| - 1
    else LastFocus(h[..|h| - 1], t)
  }

  /** `list` is in reverse order of the last touch in `h`. */
  ghost predicate LatestFirst<T>(list: seq<T>, h: seq<Touch<T>>) {
    && (forall i :: 0 <= i < |list| ==> 0 <= LastTouch(h, list[i]))
    && forall i, j :: 0 <= i < j < |list| ==> LastTouch(h, list[j]) < LastTouch(h, list[i])
  }

  lemma {:induction false} LastTouchBound<T>(h: seq<Touch<T>>, t: T)
    ensures -1 <= LastTouch(h, t) < |h|
    ensures -1 <= LastFocus(h, t) <= LastTouch(h, t)
  {
    if h != [] {
      LastTouchBound(h[..|h| - 1], t);
    }
  }

  lemma LatestFirstWithout<T>(list: seq<T>, h: seq<Touch<T>>, t: T)
    requires Distinct(list) && LatestFirst(list, h)
    ensures LatestFirst(Without(list, t), h)
  {
    if t in list {
      var k :| 0 <= k < |list| && list[k] == t;
      WithoutAt(list, k);
      var rest := Without(list, t);
      assert forall i :: 0 <= i < |rest| ==> rest[i] == list[if i < k then i else i + 1];
    } else {
      WithoutAbsent(list, t);
    }
  }

  /** Touching `t` and moving it to the front go together. */
  lemma LatestFirstTouched<T>(list: seq<T>, h: seq<Touch<T>>, touch: Touch<T>)
    requires Distinct(list) && LatestFirst(list, h)
    ensures LatestFirst([touch.t] + Without(list, touch.t), h + [touch])
  {
    var rest, h' := Without(list, touch.t), h + [touch];
    WithoutFacts(list, touch.t);
    LatestFirstWithout(list, h, touch.t);
    assert h'[..|h'| - 1] == h;
    forall x | x in rest ensures LastTouch(h', x) == LastTouch(h, x) < |h| {
      LastTouchBound(h, x);
    }
    assert LastTouch(h', touch.t) == |h|;
  }

  /** How a step changes the list, read off the change of focus. */
  function Reordered<T(==)>(w: World<T>, w': World<T>): seq<T> {
    if w'.focused != w.focused && w'.focused.Some?
    then [w'.focused.value] + Without(w.toplevels, w'.focused.value)
    else w.toplevels
  }

  lemma StepReorders<T>(w: World<T>, e: Event<T>)
    ensures Step(w, e).toplevels ==
            match e case New(t) => [t] + w.toplevels
                    case Destroy(t) => Without(Reordered(w, Step(w, e)), t)
                    case _ => Reordered(w, Step(w, e))
  {
  }

  lemma ReorderedLatestFirst<T>(w: World<T>, h: seq<Touch<T>>, e: Event<T>, w': World<T>)
    requires Distinct(w.toplevels) && LatestFirst(w.toplevels, h) && !e.New?
    ensures Distinct(Reordered(w, w'))
    ensures LatestFirst(Reordered(w, w'), h + TouchesOf(w, e, w'))
  {
    if w'.focused != w.focused && w'.focused.Some? {
      var touch := GotFocus(w'.focused.value);
      WithoutFacts(w.toplevels, touch.t);
      LatestFirstTouched(w.toplevels, h, touch);
      assert TouchesOf(w, e, w') == [touch];
    } else {
      assert h + TouchesOf(w, e, w') == h;
    }
  }

  lemma StepLatestFirst<T>(w: World<T>, h: seq<Touch<T>>, e: Event<T>)
    requires Consistent(w) && Possible(w, e) && LatestFirst(w.toplevels, h)
    ensures LatestFirst(Step(w, e).toplevels, h + TouchesOf(w, e, Step(w, e)))
  {
    var w' := Step(w, e);
    StepReorders(w, e);
    if e.New? {
      LatestFirstTouched(w.toplevels, h, Created(e.t));
      WithoutAbsent(w.toplevels, e.t);
      assert TouchesOf(w, e, w') == [Created(e.t)];
    } else {
      ReorderedLatestFirst(w, h, e, w');
      if e.Destroy? {
        LatestFirstWithout(Reordered(w, w'), h + TouchesOf(w, e, w'), e.t);
      }
    }
  }

  lemma StepElems<T>(w: World<T>, e: Event<T>)
    requires Consistent(w) && Possible(w, e)
    ensures Elems(Step(w, e).toplevels) ==
            match e case New(t) => Elems(w.toplevels) + {t}
                    case Destroy(t) => Elems(w.toplevels) - {t}
                    case _ => Elems(w.toplevels)
  {
    StepConsistent(w, e);
  }

  /** After any run, orderly or not, the recency list holds the live windows, each once, in
      reverse order of their last touch: a permutation fixed by the history alone. */
  lemma {:induction false} RecencyListIsHistory<T>(cursor: (real, real), keyboard: bool, es: seq<Event<T>>)
    requires PossibleRun(Start(cursor, keyboard), es)
    ensures var w0 := Start(cursor, keyboard);
            && Distinct(Run(w0, es).toplevels)
            && Elems(Run(w0, es).toplevels) == Live(es)
            && LatestFirst(Run(w0, es).toplevels, Touches(w0, es))
  {
    AlwaysConsistent(cursor, keyboard, es);
    if es != [] {
      var w0: World<T>, es', e := Start(cursor, keyboard), es[..|es| - 1], es[|es| - 1];
      RecencyListIsHistory(cursor, keyboard, es');
      AlwaysConsistent(cursor, keyboard, es');
      StepLatestFirst(Run(w0, es'), Touches(w0, es'), e);
      StepElems(Run(w0, es'), e);
    }
  }

  /** In an orderly run the last touch of a mapped window is a change of focus, not its creation. */
  ghost predicate MappedWereFocused<T>(w: World<T>, h: seq<Touch<T>>) {
    forall t <- w.mapped :: 0 <= LastTouch(h, t) == LastFocus(h, t)
  }

  lemma StepMappedWereFocused<T>(w: World<T>, h: seq<Touch<T>>, e: Event<T>)
    requires FocusedFirst(w) && Orderly(w, e) && MappedWereFocused(w, h)
    ensures MappedWereFocused(Step(w, e), h + TouchesOf(w, e, Step(w, e)))
  {
    var w' := Step(w, e);
    var news := TouchesOf(w, e, w');
    if w.focused.Some? {
      var k := FirstInAt(w.toplevels, w.mapped);
    }
    assert news == [] ==> h + news == h;
    assert |news| == 1 ==> (h + news)[..|h + news| - 1] == h;
    forall t | t in w'.mapped ensures 0 <= LastTouch(h + news, t) == LastFocus(h + news, t) {
      assert t in w.mapped || (e.Map? && t == e.t);
      assert e.New? ==> t != e.t;
    }
  }

  lemma {:induction false} MappedWereFocusedAlways<T>(cursor: (real, real), keyboard: bool, es: seq<Event<T>>)
    requires OrderlyRun(Start(cursor, keyboard), es)
    ensures PossibleRun(Start(cursor, keyboard), es)
    ensures MappedWereFocused(Run(Start(cursor, keyboard), es), Touches(Start(cursor, keyboard), es))
  {
    if es != [] {
      var w0: World<T>, es' := Start(cursor, keyboard), es[..|es| - 1];
      MappedWereFocusedAlways(cursor, keyboard, es');
      FocusIsFirstMapped(cursor, keyboard, es');
      StepMappedWereFocused(Run(w0, es'), Touches(w0, es'), es[|es| - 1]);
    }
  }

  /** The first window of the list among some is the one of them touched last. */
  lemma FirstIsLatest<T>(list: seq<T>, h: seq<Touch<T>>, k: nat, among: set<T>)
    requires LatestFirst(list, h) && k < |list| && forall i :: 0 <= i < k ==> list[i] !in among
    ensures forall v <- among :: v in list && v != list[k] ==> LastTouch(h, v) < LastTouch(h, list[k])
  {
    forall v | v in among && v in list && v != list[k] ensures LastTouch(h, v) < LastTouch(h, list[k]) {
      var j :| 0 <= j < |list| && list[j] == v;
      assert k < j;
    }
  }

  /** When the focused window unmaps, the focus goes to the other window still shown that most
      recently held it, and to nothing exactly when no other window is shown. */
  lemma UnmapRestoresPreviousFocus<T>(cursor: (real, real), keyboard: bool, es: seq<Event<T>>, t: T)
    requires OrderlyRun(Start(cursor, keyboard), es)
    requires Run(Start(cursor, keyboard), es).focused == Some(t)
    ensures var w0: World<T> := Start(cursor, keyboard);
            match Run(w0, es + [Unmap(t)]).focused
            case None => forall v :: Shown(es, v) ==> v == t
            case Some(u) =>
              && u != t && Shown(es, u)
              && forall v :: Shown(es, v) && v != t && v != u ==>
                   LastFocus(Touches(w0, es), v) < LastFocus(Touches(w0, es), u)
  {
    var w0: World<T> := Start(cursor, keyboard);
    var w, h := Run(w0, es), Touches(w0, es);
    RunOneMore(w0, es, Unmap(t));
    MappedWereFocusedAlways(cursor, keyboard, es);
    RecencyListIsHistory(cursor, keyboard, es);
    AlwaysConsistent(cursor, keyboard, es);
    var left := w.mapped - {t};
    forall v ensures v in left <==> v != t && Shown(es, v) {
      MappedIffShown(cursor, keyboard, es, v);
    }
    FirstInNone(w.toplevels, left);
    if FirstIn(w.toplevels, left).Some? {
      var k := FirstInAt(w.toplevels, left);
      FirstIsLatest(w.toplevels, h, k, left);
    }
  }
}
