/** Maximise and fullscreen requests over whole runs. */
module WindowPlacement {
  import opened Prelude
  import opened Placement
  import opened Windows

  /** Events that leave `t` alive and undragged, and place it on `layout` without naming an output.
      Everything else may go on, placing and dragging other windows included. */
  predicate Undragged<T(==)>(e: Event<T>, t: T, layout: Layout) {
    match e
    case New(u) => u != t
    case Destroy(u) => u != t
    case RequestMove(u) => u != t
    case Place(u, l, r) => u == t ==> l == layout && NamesNoOutput(r)
    case _ => true
  }

  ghost predicate OnOutput<T>(w: World<T>, t: T, b: Box) {
    t in w.frames && At(w.frames[t], b) && w.grab.window != Some(t)
  }

  lemma OnOutputStep<T>(w: World<T>, e: Event<T>, t: T, layout: Layout, k: nat)
    requires Tiled(layout) && k < |layout| && OnOutput(w, t, layout[k]) && Undragged(e, t, layout)
    ensures OnOutput(Step(w, e), t, layout[k])
  {
    if e.Place? && e.t == t {
      StaysOnOutput(layout, w.frames[t], k, e.request);
    }
  }

  lemma {:induction false} OnOutputRun<T>(w: World<T>, es: seq<Event<T>>, t: T, layout: Layout, k: nat)
    requires Tiled(layout) && k < |layout| && OnOutput(w, t, layout[k])
    requires forall e <- es :: Undragged(e, t, layout)
    ensures OnOutput(Run(w, es), t, layout[k])
  {
    if es != [] {
      OnOutputRun(w, es[..|es| - 1], t, layout, k);
      OnOutputStep(Run(w, es[..|es| - 1]), es[|es| - 1], t, layout, k);
    }
  }

  /** The request names an output. */
  predicate Names(r: Request) { r.Fullscreen? && r.output.Some? }

  /** Entering either state with an output in the layout makes the window fill one layout output:
      the named one, or the one its node is on, or the first.  Whatever happens then, as long as it
      is not dragged, it stays there, and every request that names no output and enters a state
      makes it fill that same output. */
  lemma PlacementIsSticky<T>(w: World<T>, t: T, layout: Layout, enter: Request, es: seq<Event<T>>)
    returns (k: nat)
    requires t in w.frames && w.grab.window != Some(t)
    requires Tiled(layout) && |layout| > 0 && !enter.current
    requires Names(enter) ==> enter.output.value < |layout|
    requires forall e <- es :: Undragged(e, t, layout)
    ensures Names(enter) ==> k == enter.output.value
    ensures !Names(enter) ==>
              forall j :: 0 <= j < |layout| && layout[j].Contains(w.frames[t].x, w.frames[t].y) ==> k == j
    ensures !Names(enter) && (forall j :: 0 <= j < |layout| ==> !layout[j].Contains(w.frames[t].x, w.frames[t].y)) ==>
              k == 0
    ensures k < |layout| && Fills(Step(w, Place(t, layout, enter)).frames[t], layout[k], enter)
    ensures var w' := Run(Step(w, Place(t, layout, enter)), es);
            && t in w'.frames && At(w'.frames[t], layout[k])
            && forall r: Request :: !r.current && NamesNoOutput(r) ==>
                 Fills(Step(w', Place(t, layout, r)).frames[t], layout[k], r)
  {
    k := Target(layout, w.frames[t], enter).value;
    var w' := Run(Step(w, Place(t, layout, enter)), es);
    OnOutputRun(Step(w, Place(t, layout, enter)), es, t, layout, k);
    forall r: Request | !r.current && NamesNoOutput(r)
      ensures Fills(Step(w', Place(t, layout, r)).frames[t], layout[k], r)
    {
      StaysOnOutput(layout, w'.frames[t], k, r);
    }
  }

  // ---------------------------------------------------------------------------------------
  // What clients are told
  // ---------------------------------------------------------------------------------------

  /** The request has an effect: it leaves the state, or there is an output to choose. */
  predicate Effective(layout: Layout, r: Request) { r.current || layout != [] || Names(r) }

  predicate Places<T(==)>(e: Event<T>, t: T) { e.Place? && e.t == t && Effective(e.layout, e.request) }

  /** Number of the last request for `t` with an effect, -1 if there is none. */
  function LastPlace<T(==)>(es: seq<Event<T>>, t: T): (k: int)
    ensures -1 <= k < |es| && (k >= 0 ==> Places(es[k], t))
  {
    if es == [] then -1 else if Places(es[|es| - 1], t) then |es| - 1 else LastPlace(es[..|es| - 1], t)
  }

  /** The same for requests of one kind. */
  function LastKind<T(==)>(es: seq<Event<T>>, t: T, maximize: bool): (k: int)
    ensures -1 <= k < |es| && (k >= 0 ==> Places(es[k], t) && es[k].request.Maximize? == maximize)
  {
    if es == [] then -1
    else
      var e := es[|es| - 1];
      if Places(e, t) && e.request.Maximize? == maximize then |es| - 1 else LastKind(es[..|es| - 1], t, maximize)
  }

  predicate Lives<T(==)>(e: Event<T>, t: T) { e != New(t) && e != Destroy(t) }

  /** One event: the state it is about is set, and a request that leaves it gives up the size and
      moves nothing. */
  lemma PlaceStep<T>(w: World<T>, e: Event<T>, t: T)
    requires t in w.frames && Lives(e, t)
    ensures t in Step(w, e).frames
    ensures var f, f' := w.frames[t], Step(w, e).frames[t];
            if !Places(e, t) then f' == f.(x := f'.x, y := f'.y) && (e.Place? ==> f' == f)
            else
              && f'.maximized == (if e.request.Maximize? then !e.request.current else f.maximized)
              && f'.fullscreen == (if e.request.Fullscreen? then !e.request.current else f.fullscreen)
              && (e.request.current ==> f'.width == 0 && f'.height == 0 && f'.x == f.x && f'.y == f.y)
  {
  }

  /** Over any run a window is told that it is maximised exactly when the last maximise request with
      an effect entered the state, the same for fullscreen, and after a request that left a state
      its size is its own choice. */
  lemma {:induction false} StatesAreLast<T>(w: World<T>, es: seq<Event<T>>, t: T)
    requires t in w.frames && forall e <- es :: Lives(e, t)
    ensures t in Run(w, es).frames
    ensures var f, m, s, p := Run(w, es).frames[t], LastKind(es, t, true), LastKind(es, t, false), LastPlace(es, t);
            && f.maximized == (if m < 0 then w.frames[t].maximized else !es[m].request.current)
            && f.fullscreen == (if s < 0 then w.frames[t].fullscreen else !es[s].request.current)
            && (p < 0 ==> f.width == w.frames[t].width && f.height == w.frames[t].height)
            && (p >= 0 && es[p].request.current ==> f.width == 0 && f.height == 0)
  {
    if es != [] {
      var front, e := es[..|es| - 1], es[|es| - 1];
      StatesAreLast(w, front, t);
      PlaceStep(Run(w, front), e, t);
    }
  }

  /** Going fullscreen on an output that is not in the layout: its box is empty. */
  lemma OutputElsewhere<T>(w: World<T>, t: T, layout: Layout, k: nat)
    requires t in w.frames && k >= |layout|
    ensures Step(w, Place(t, layout, Fullscreen(false, Some(k)))).frames[t]
            == Frame(0, 0, 0, 0, w.frames[t].maximized, true)
  {
  }
}
