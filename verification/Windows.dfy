/** The window manager of `xdg.c` and `input.c` as a machine over plain values: toplevels of a
    type `T` come and go, are mapped, unmapped, clicked, dragged and destroyed in any order. */
module Windows {
  import opened Prelude
  import P = Placement

  /** `grabbed_toplevel` and the four coordinates recorded when the grab started. */
  datatype Grab<T> = Grab(window: Option<T>, x: real, y: real, nodeX: int, nodeY: int)

  /** `toplevels` is the recency list.  `mapped` and `activated` are the flags the protocol
      library keeps for each toplevel, `frames` the positions of the scene nodes and the sizes
      and states that were sent to the clients.  `keyboard` says whether the seat has a keyboard,
      `seat` is its keyboard focus, `pointer` the surface with pointer focus. */
  datatype World<T(==)> = World(
    toplevels: seq<T>,
    mapped: set<T>,
    activated: set<T>,
    focused: Option<T>,
    grab: Grab<T>,
    frames: map<T, P.Frame>,
    cursor: (real, real),
    keyboard: bool,
    seat: Option<T>,
    pointer: Option<nat>)

  datatype Event<T> =
    | New(t: T)
    | Map(t: T)
    | Unmap(t: T)
    | Destroy(t: T)
    | RequestMove(t: T)
    | Place(t: T, layout: P.Layout, request: P.Request)
    | Press(hit: Option<T>)
    | Release
    | Motion(cx: real, cy: real, under: Option<nat>)
    | Keyboard(present: bool)

  function NoGrab<T>(): Grab<T> { Grab(None, 0.0, 0.0, 0, 0) }

  function Start<T(==)>(cursor: (real, real), keyboard: bool): World<T> {
    World([], {}, {}, None, NoGrab(), map[], cursor, keyboard, None, None)
  }

  /** The first toplevel of `list` that lies in `among`: what both focus-transfer scans look for. */
  function FirstIn<T(==)>(list: seq<T>, among: set<T>): Option<T> {
    if list == [] then None
    else if list[0] in among then Some(list[0])
    else FirstIn(list[1..], among)
  }

  /** `zen_xdg_focus_toplevel`. */
  function Focus<T(==)>(w: World<T>, next: Option<T>): World<T> {
    if w.focused == next then w
    else
      var off := match w.focused case Some(p) => w.activated - {p} case None => w.activated;
      match next
      case None => w.(activated := off, focused := None, seat := None)
      case Some(t) =>
        w.(toplevels := [t] + Without(w.toplevels, t),
           activated := off + {t},
           focused := next,
           seat := if w.keyboard then next else w.seat)
  }

  function HandOn<T(==)>(w: World<T>, t: T): World<T> {
    if w.focused == Some(t) then Focus(w, FirstIn(w.toplevels, Elems(w.toplevels) - {t})) else w
  }

  function Forget<T(==)>(w: World<T>, t: T): World<T> {
    w.(toplevels := Without(w.toplevels, t),
       mapped := w.mapped - {t},
       activated := w.activated - {t},
       grab := if w.grab.window == Some(t) then NoGrab() else w.grab,
       frames := w.frames - {t})
  }

  /** `handle_toplevel_destroy`: hand the focus on, cancel the grab, leave the list. */
  function DestroyStep<T(==)>(w: World<T>, t: T): World<T> {
    Forget(HandOn(w, t), t)
  }

  /** A motion event puts the node of the grabbed window at the grab's origin plus the truncated
      displacement of the cursor. */
  function Moved<T(==)>(frames: map<T, P.Frame>, t: T, g: Grab<T>, cursor: (real, real)): map<T, P.Frame> {
    if t in frames
    then frames[t := frames[t].(x := g.nodeX + Trunc(cursor.0 - g.x), y := g.nodeY + Trunc(cursor.1 - g.y))]
    else frames
  }

  /** One event of the compositor. */
  function Step<T(==)>(w: World<T>, e: Event<T>): World<T> {
    match e
    case New(t) => w.(toplevels := [t] + w.toplevels, frames := w.frames[t := P.NEW])
    case Map(t) => Focus(w.(mapped := w.mapped + {t}), Some(t))
    case Unmap(t) =>
      var w1 := w.(mapped := w.mapped - {t});
      if w1.focused == Some(t) then Focus(w1, FirstIn(w1.toplevels, w1.mapped)) else w1
    case Destroy(t) => DestroyStep(w, t)
    case RequestMove(t) =>
      if t in w.frames
      then w.(grab := Grab(Some(t), w.cursor.0, w.cursor.1, w.frames[t].x, w.frames[t].y))
      else w
    case Place(t, layout, r) =>
      if t in w.frames then w.(frames := w.frames[t := P.Handle(layout, w.frames[t], r)]) else w
    case Press(hit) => if hit.Some? then Focus(w, hit) else w
    case Release => if w.grab.window.Some? then w.(grab := NoGrab()) else w
    case Motion(cx, cy, under) =>
      var w1 := w.(cursor := (cx, cy));
      if w1.grab.window.Some?
      then w1.(frames := Moved(w1.frames, w1.grab.window.value, w1.grab, w1.cursor))
      else w1.(pointer := under)
    case Keyboard(present) => w.(keyboard := present)
  }

  /** What holds of the arguments in any order of events: a new toplevel is not on the list yet,
      the others are. */
  predicate Possible<T(==)>(w: World<T>, e: Event<T>) {
    match e
    case New(t) => t !in w.toplevels
    case Map(t) => t in w.toplevels
    case Unmap(t) => t in w.toplevels
    case Destroy(t) => t in w.toplevels
    case RequestMove(t) => t in w.toplevels
    case Place(t, _, _) => t in w.toplevels
    case Press(hit) => hit.Some? ==> hit.value in w.toplevels
    case _ => true
  }

  /** The order wlroots keeps on top of that: map and unmap alternate, a mapped toplevel is
      unmapped before it is destroyed, and hit-testing only finds what is shown. */
  predicate Orderly<T(==)>(w: World<T>, e: Event<T>) {
    && Possible(w, e)
    && match e
       case Map(t) => t !in w.mapped
       case Unmap(t) => t in w.mapped
       case Destroy(t) => t !in w.mapped
       case Press(hit) => hit.Some? ==> hit.value in w.mapped
       case _ => true
  }

  /** The world after the events `es`, oldest first. */
  function Run<T(==)>(w: World<T>, es: seq<Event<T>>): World<T> {
    if es == [] then w else Step(Run(w, es[..|es| - 1]), es[|es| - 1])
  }

  predicate PossibleRun<T(==)>(w: World<T>, es: seq<Event<T>>) {
    es == [] || (PossibleRun(w, es[..|es| - 1]) && Possible(Run(w, es[..|es| - 1]), es[|es| - 1]))
  }

  predicate OrderlyRun<T(==)>(w: World<T>, es: seq<Event<T>>) {
    es == [] || (OrderlyRun(w, es[..|es| - 1]) && Orderly(Run(w, es[..|es| - 1]), es[|es| - 1]))
  }

  lemma RunOneMore<T>(w: World<T>, es: seq<Event<T>>, e: Event<T>)
    ensures Run(w, es + [e]) == Step(Run(w, es), e)
    ensures PossibleRun(w, es + [e]) <==> PossibleRun(w, es) && Possible(Run(w, es), e)
    ensures OrderlyRun(w, es + [e]) <==> OrderlyRun(w, es) && Orderly(Run(w, es), e)
  {
    assert (es + [e])[..|es + [e]| - 1] == es;
  }

  // ---------------------------------------------------------------------------------------
  // Every order of events
  // ---------------------------------------------------------------------------------------

  /** What every order of events keeps. */
  ghost predicate Consistent<T>(w: World<T>) {
    && Distinct(w.toplevels)
    && w.mapped <= Elems(w.toplevels)
    && w.frames.Keys == Elems(w.toplevels)
    && (w.focused.Some? ==> w.focused.value in w.toplevels)
    && w.activated == (if w.focused.Some? then {w.focused.value} else {})
    && (w.grab.window.Some? ==> w.grab.window.value in w.toplevels)
    && (w.grab.window.None? ==> w.grab == NoGrab())
  }

  lemma FocusConsistent<T>(w: World<T>, next: Option<T>)
    requires Consistent(w) && (next.Some? ==> next.value in w.toplevels)
    ensures Consistent(Focus(w, next))
    ensures Focus(w, next).focused == next
    ensures Elems(Focus(w, next).toplevels) == Elems(w.toplevels)
  {
    if next.Some? {
      WithoutFacts(w.toplevels, next.value);
      ToFrontElems(w.toplevels, next.value);
    }
  }

  lemma {:induction false} FirstInNone<T>(list: seq<T>, among: set<T>)
    ensures FirstIn(list, among).None? <==> forall x <- list :: x !in among
  {
    if list != [] && list[0] !in among {
      FirstInNone(list[1..], among);
    }
  }

  lemma {:induction false} FirstInAt<T>(list: seq<T>, among: set<T>) returns (k: nat)
    requires FirstIn(list, among).Some?
    ensures k < |list| && FirstIn(list, among) == Some(list[k]) && list[k] in among
    ensures forall i :: 0 <= i < k ==> list[i] !in among
  {
    if list[0] in among {
      k := 0;
    } else {
      k := FirstInAt(list[1..], among);
      k := k + 1;
    }
  }

  lemma ForgetConsistent<T>(w: World<T>, t: T)
    requires Consistent(w) && w.focused != Some(t)
    ensures Consistent(Forget(w, t))
  {
    WithoutFacts(w.toplevels, t);
    assert Elems(Without(w.toplevels, t)) == Elems(w.toplevels) - {t};
  }

  lemma DestroyConsistent<T>(w: World<T>, t: T)
    requires Consistent(w) && t in w.toplevels
    ensures Consistent(DestroyStep(w, t))
  {
    if w.focused == Some(t) {
      var others := Elems(w.toplevels) - {t};
      var next := FirstIn(w.toplevels, others);
      if next.Some? {
        var k := FirstInAt(w.toplevels, others);
      }
      FocusConsistent(w, next);
      ForgetConsistent(Focus(w, next), t);
    } else {
      ForgetConsistent(w, t);
    }
  }

  lemma StepConsistent<T>(w: World<T>, e: Event<T>)
    requires Consistent(w) && Possible(w, e)
    ensures Consistent(Step(w, e))
  {
    match e
    case Map(t) => FocusConsistent(w.(mapped := w.mapped + {t}), Some(t));
    case Press(hit) => FocusConsistent(w, hit);
    case Unmap(t) =>
      var w1 := w.(mapped := w.mapped - {t});
      var next := FirstIn(w1.toplevels, w1.mapped);
      if next.Some? {
        var k := FirstInAt(w1.toplevels, w1.mapped);
      }
      FocusConsistent(w1, next);
    case Destroy(t) => DestroyConsistent(w, t);
    case New(t) => assert Elems([t] + w.toplevels) == Elems(w.toplevels) + {t};
    case _ =>
  }

  /** Whatever the order of events, destroying mapped windows included: focused and grabbed are
      live or null, exactly the focused window is activated, every live window is listed once,
      and the grab coordinates are zero while nothing is grabbed. */
  lemma {:induction false} AlwaysConsistent<T>(cursor: (real, real), keyboard: bool, es: seq<Event<T>>)
    requires PossibleRun(Start(cursor, keyboard), es)
    ensures Consistent(Run(Start(cursor, keyboard), es))
  {
    if es != [] {
      AlwaysConsistent(cursor, keyboard, es[..|es| - 1]);
      StepConsistent(Run(Start(cursor, keyboard), es[..|es| - 1]), es[|es| - 1]);
    }
  }
}
