/** Interactive moves over whole runs, and the seat's keyboard focus. */
module WindowDrag {
  import opened Prelude
  import opened Windows

  /** Events that neither end the drag of `t` nor put `t` elsewhere.  Everything else may go on
      meanwhile: motion, clicks, windows coming, going, mapping and unmapping, `t` included. */
  predicate DuringDrag<T(==)>(e: Event<T>, t: T) {
    match e
    case Release => false
    case RequestMove(_) => false
    case New(u) => u != t
    case Destroy(u) => u != t
    case Place(u, _, _) => u != t
    case _ => true
  }

  ghost predicate DragState<T>(w: World<T>, t: T, start: (real, real), origin: (int, int), pointer: Option<nat>) {
    && w.grab == Grab(Some(t), start.0, start.1, origin.0, origin.1)
    && t in w.frames
    && w.frames[t].x == origin.0 + Trunc(w.cursor.0 - start.0)
    && w.frames[t].y == origin.1 + Trunc(w.cursor.1 - start.1)
    && w.pointer == pointer
  }

  lemma DragStep<T>(w: World<T>, e: Event<T>, t: T,
                   start: (real, real), origin: (int, int), pointer: Option<nat>)
    requires DragState(w, t, start, origin, pointer) && DuringDrag(e, t)
    ensures DragState(Step(w, e), t, start, origin, pointer)
  {
  }

  lemma {:induction false} DragRun<T>(w: World<T>, es: seq<Event<T>>, t: T,
                   start: (real, real), origin: (int, int), pointer: Option<nat>)
    requires DragState(w, t, start, origin, pointer) && forall e <- es :: DuringDrag(e, t)
    ensures DragState(Run(w, es), t, start, origin, pointer)
  {
    if es != [] {
      DragRun(w, es[..|es| - 1], t, start, origin, pointer);
      DragStep(Run(w, es[..|es| - 1]), es[|es| - 1], t, start, origin, pointer);
    }
  }

  /** After a move request and any events of the drag, however many and whatever way round, the
      window is at its origin plus the truncated displacement of the cursor: less than a pixel
      from the exact drag on each axis, back at the origin when the cursor is, with the pointer
      focus of the moment the drag began. */
  lemma DragIsPathIndependent<T>(w: World<T>, es: seq<Event<T>>, t: T)
    requires t in w.frames && forall e <- es :: DuringDrag(e, t)
    ensures var w' := Run(Step(w, RequestMove(t)), es);
            var dx, dy := w'.cursor.0 - w.cursor.0, w'.cursor.1 - w.cursor.1;
            && t in w'.frames
            && w'.frames[t].x == w.frames[t].x + Trunc(dx)
            && w'.frames[t].y == w.frames[t].y + Trunc(dy)
            && -1.0 < (w'.frames[t].x - w.frames[t].x) as real - dx < 1.0
            && -1.0 < (w'.frames[t].y - w.frames[t].y) as real - dy < 1.0
            && (w'.cursor == w.cursor ==> w'.frames[t].x == w.frames[t].x && w'.frames[t].y == w.frames[t].y)
            && w'.pointer == w.pointer
  {
    DragRun(Step(w, RequestMove(t)), es, t, w.cursor, (w.frames[t].x, w.frames[t].y), w.pointer);
  }

  // ---------------------------------------------------------------------------------------
  // When a drag goes on
  // ---------------------------------------------------------------------------------------

  /** The `i`th event asks to move `t`, and nothing since has ended that drag. */
  ghost predicate GrabbedSince<T>(es: seq<Event<T>>, t: T, i: nat) {
    && i < |es| && es[i] == RequestMove(t)
    && forall j :: i < j < |es| ==> !es[j].RequestMove? && !es[j].Release? && es[j] != Destroy(t)
  }

  lemma GrabbedOneMore<T>(es: seq<Event<T>>, e: Event<T>, t: T)
    ensures (exists i: nat :: GrabbedSince(es + [e], t, i)) <==>
            e == RequestMove(t)
            || ((exists i: nat :: GrabbedSince(es, t, i)) && !e.RequestMove? && !e.Release? && e != Destroy(t))
  {
    var n := |es|;
    forall i: nat | i < n
      ensures GrabbedSince(es + [e], t, i) <==>
              GrabbedSince(es, t, i) && !e.RequestMove? && !e.Release? && e != Destroy(t)
    {
      if GrabbedSince(es + [e], t, i) {
        assert (es + [e])[n] == e;
        assert forall j :: i < j < n ==> (es + [e])[j] == es[j];
      }
    }
    assert GrabbedSince(es + [e], t, n) <==> e == RequestMove(t);
  }

  lemma GrabStep<T>(w: World<T>, e: Event<T>, t: T)
    requires Consistent(w) && Possible(w, e)
    ensures Step(w, e).grab.window == Some(t) <==>
            e == RequestMove(t)
            || (w.grab.window == Some(t) && !e.RequestMove? && !e.Release? && e != Destroy(t))
  {
  }

  /** A window is being dragged exactly from a request to move it until a release, its destruction
      or another request. */
  lemma {:induction false} GrabIff<T>(cursor: (real, real), keyboard: bool, es: seq<Event<T>>, t: T)
    requires PossibleRun(Start(cursor, keyboard), es)
    ensures Run(Start(cursor, keyboard), es).grab.window == Some(t) <==> exists i: nat :: GrabbedSince(es, t, i)
  {
    if es != [] {
      var front, e := es[..|es| - 1], es[|es| - 1];
      assert es == front + [e];
      GrabIff(cursor, keyboard, front, t);
      AlwaysConsistent(cursor, keyboard, front);
      GrabStep(Run(Start(cursor, keyboard), front), e, t);
      GrabbedOneMore(front, e, t);
    }
  }

  /** Number of the last motion event, -1 if there is none. */
  function LastMotion<T>(es: seq<Event<T>>): (k: int)
    ensures -1 <= k < |es| && (k >= 0 ==> es[k].Motion?)
  {
    if es == [] then -1 else if es[|es| - 1].Motion? then |es| - 1 else LastMotion(es[..|es| - 1])
  }

  /** The cursor is where the last motion event put it. */
  lemma {:induction false} CursorIsLast<T>(w: World<T>, es: seq<Event<T>>)
    ensures Run(w, es).cursor == if LastMotion(es) < 0 then w.cursor else (es[LastMotion(es)].cx, es[LastMotion(es)].cy)
  {
    if es != [] {
      CursorIsLast(w, es[..|es| - 1]);
    }
  }

  /** Events that do not place `t` or move it to or from the list of windows. */
  predicate Unplaced<T(==)>(e: Event<T>, t: T) {
    match e
    case New(u) => u != t
    case Destroy(u) => u != t
    case Place(u, _, _) => u != t
    case _ => true
  }

  /** Without a drag the cursor moves alone: the pointer focus is the surface under it at the last
      motion, and every window that is not placed stays as it is. */
  lemma {:induction false} NoDragNoMove<T>(w: World<T>, es: seq<Event<T>>)
    requires w.grab.window.None? && forall e <- es :: !e.RequestMove?
    ensures Run(w, es).grab.window.None?
    ensures Run(w, es).pointer == if LastMotion(es) < 0 then w.pointer else es[LastMotion(es)].under
    ensures forall t :: t in w.frames && (forall e <- es :: Unplaced(e, t)) ==>
              t in Run(w, es).frames && Run(w, es).frames[t] == w.frames[t]
  {
    if es != [] {
      var front, e := es[..|es| - 1], es[|es| - 1];
      NoDragNoMove(w, front);
      forall t | t in w.frames && (forall e <- es :: Unplaced(e, t))
        ensures t in Run(w, es).frames && Run(w, es).frames[t] == w.frames[t]
      {
        assert Unplaced(e, t);
      }
    }
  }

  /** A release ends the drag: whatever was grabbed, motion behind it moves no window until the next
      request, and reaches the surface under the cursor. */
  lemma ReleaseEndsDrag<T>(w: World<T>, es: seq<Event<T>>)
    requires forall e <- es :: !e.RequestMove?
    ensures var w' := Run(Step(w, Release), es);
            && w'.pointer == (if LastMotion(es) < 0 then w.pointer else es[LastMotion(es)].under)
            && forall t :: t in w.frames && (forall e <- es :: Unplaced(e, t)) ==>
                 t in w'.frames && w'.frames[t] == w.frames[t]
  {
    NoDragNoMove(Step(w, Release), es);
  }

  /** A drag by twenty pixels: the motion after the release moves the pointer focus alone. */
  lemma DragAndRelease()
    ensures var es := [New(0)] + [Map(0)] + [Motion(10.0, 10.0, None)] + [RequestMove(0)]
                      + [Motion(30.0, 10.0, None)] + [Release] + [Motion(50.0, 10.0, Some(7))];
            var w := Run(Start((0.0, 0.0), true), es);
            && OrderlyRun(Start((0.0, 0.0), true), es)
            && 0 in w.frames && w.frames[0] == P.Frame(20, 0, 0, 0, false, false) && w.pointer == Some(7)
  {
    var w: World<int> := Start((0.0, 0.0), true);
    var es1 := [New(0)];
    var es2 := es1 + [Map(0)];
    var es3 := es2 + [Motion(10.0, 10.0, None)];
    var es4 := es3 + [RequestMove(0)];
    var es5 := es4 + [Motion(30.0, 10.0, None)];
    var es6 := es5 + [Release];
    RunOneMore(w, [], New(0));
    assert [] + [New(0)] == es1;
    RunOneMore(w, es1, Map(0));
    RunOneMore(w, es2, Motion(10.0, 10.0, None));
    RunOneMore(w, es3, RequestMove(0));
    RunOneMore(w, es4, Motion(30.0, 10.0, None));
    assert Run(w, es5).frames[0] == P.Frame(20, 0, 0, 0, false, false);
    RunOneMore(w, es5, Release);
    RunOneMore(w, es6, Motion(50.0, 10.0, Some(7)));
  }

  // ---------------------------------------------------------------------------------------
  // The seat
  // ---------------------------------------------------------------------------------------

  /** The `i`th event changes the focus. */
  ghost predicate ChangesAt<T>(w: World<T>, es: seq<Event<T>>, i: nat)
    requires i < |es|
  {
    Run(w, es[..i + 1]).focused != Run(w, es[..i]).focused
  }

  /** The `i`th event changes the focus and the seat hears of it: the focus is cleared, or there
      is a keyboard. */
  ghost predicate ToldAt<T>(w: World<T>, es: seq<Event<T>>, i: nat)
    requires i < |es|
  {
    ChangesAt(w, es, i) && (Run(w, es[..i + 1]).focused.None? || Run(w, es[..i]).keyboard)
  }

  /** It is the last such event. */
  ghost predicate LastToldAt<T>(w: World<T>, es: seq<Event<T>>, i: nat) {
    i < |es| && ToldAt(w, es, i) && forall j :: i < j < |es| ==> !ToldAt(w, es, j)
  }

  lemma PrefixRuns<T>(w: World<T>, es: seq<Event<T>>, n: nat)
    requires n <= |es|
    ensures forall i :: 0 <= i < n ==> (ToldAt(w, es[..n], i) <==> ToldAt(w, es, i))
  {
    forall i | 0 <= i < n ensures ToldAt(w, es[..n], i) <==> ToldAt(w, es, i) {
      assert es[..n][..i] == es[..i] && es[..n][..i + 1] == es[..i + 1];
    }
  }

  lemma SeatStep<T>(w: World<T>, e: Event<T>)
    ensures Step(w, e).seat ==
            if Step(w, e).focused != w.focused && (Step(w, e).focused.None? || w.keyboard)
            then Step(w, e).focused else w.seat
  {
  }

  lemma SeatOneMore<T>(w: World<T>, es: seq<Event<T>>, n: nat)
    requires |es| == n + 1
    ensures Run(w, es).seat == if ToldAt(w, es, n) then Run(w, es).focused else Run(w, es[..n]).seat
  {
    assert es[..n + 1] == es;
    SeatStep(Run(w, es[..n]), es[n]);
  }

  lemma LastToldOneMore<T>(w: World<T>, es: seq<Event<T>>, n: nat, i: nat)
    requires |es| == n + 1 && LastToldAt(w, es, i)
    ensures if ToldAt(w, es, n) then i == n else LastToldAt(w, es[..n], i) && es[..n][..i + 1] == es[..i + 1]
  {
    PrefixRuns(w, es, n);
  }

  lemma {:induction false} SeatAt<T>(w: World<T>, es: seq<Event<T>>, i: nat)
    requires LastToldAt(w, es, i)
    ensures Run(w, es).seat == Run(w, es[..i + 1]).focused
  {
    var n := |es| - 1;
    SeatOneMore(w, es, n);
    LastToldOneMore(w, es, n, i);
    if ToldAt(w, es, n) {
      assert es[..n + 1] == es;
    } else {
      SeatAt(w, es[..n], i);
    }
  }

  lemma {:induction false} SeatUntold<T>(w: World<T>, es: seq<Event<T>>)
    requires forall i :: 0 <= i < |es| ==> !ToldAt(w, es, i)
    ensures Run(w, es).seat == w.seat
  {
    if es != [] {
      SeatOneMore(w, es, |es| - 1);
      PrefixRuns(w, es, |es| - 1);
      SeatUntold(w, es[..|es| - 1]);
    }
  }

  /** The seat's keyboard focus is what the last event that it heard of made the focused toplevel;
      without such an event it is what it was. */
  lemma SeatIsLastTold<T>(w: World<T>, es: seq<Event<T>>)
    ensures forall i: nat :: LastToldAt(w, es, i) ==> Run(w, es).seat == Run(w, es[..i + 1]).focused
    ensures (forall i :: 0 <= i < |es| ==> !ToldAt(w, es, i)) ==> Run(w, es).seat == w.seat
  {
    forall i: nat | LastToldAt(w, es, i) ensures Run(w, es).seat == Run(w, es[..i + 1]).focused {
      SeatAt(w, es, i);
    }
    if forall i :: 0 <= i < |es| ==> !ToldAt(w, es, i) {
      SeatUntold(w, es);
    }
  }

  /** So the seat's focus is the focused toplevel exactly when the last event it heard of left the
      same toplevel focused as there is now; without such an event, exactly when there is none. */
  lemma SeatAgreesIff<T>(w: World<T>, es: seq<Event<T>>)
    requires w.seat == None
    ensures forall i: nat :: LastToldAt(w, es, i) ==>
              (Run(w, es).seat == Run(w, es).focused <==> Run(w, es[..i + 1]).focused == Run(w, es).focused)
    ensures (forall i :: 0 <= i < |es| ==> !ToldAt(w, es, i)) ==>
              (Run(w, es).seat == Run(w, es).focused <==> Run(w, es).focused.None?)
  {
    SeatIsLastTold(w, es);
  }

  /** It can differ while there is a keyboard: a window is mapped while there is none, and plugging
      one in tells the seat nothing. */
  lemma SeatCanLag()
    ensures var es := [Keyboard(false)] + [New(0)] + [Map(0)] + [Keyboard(true)];
            var w := Run(Start((0.0, 0.0), true), es);
            && OrderlyRun(Start((0.0, 0.0), true), es)
            && w.keyboard && w.focused == Some(0) && w.seat == None
  {
    var w: World<int> := Start((0.0, 0.0), true);
    var unplug: Event<int> := Keyboard(false);
    assert [] + [unplug] == [unplug];
    RunOneMore(w, [], unplug);
    RunOneMore(w, [Keyboard(false)], New(0));
    RunOneMore(w, [Keyboard(false)] + [New(0)], Map(0));
    RunOneMore(w, [Keyboard(false)] + [New(0)] + [Map(0)], Keyboard(true));
  }

  lemma StepKeepsSeat<T>(w: World<T>, e: Event<T>)
    requires w.keyboard && w.seat == w.focused && (e.Keyboard? ==> e.present)
    ensures Step(w, e).keyboard && Step(w, e).seat == Step(w, e).focused
  {
  }

  /** As long as the seat keeps a keyboard, its keyboard focus is the focused toplevel. */
  lemma {:induction false} SeatFollowsFocus<T>(cursor: (real, real), es: seq<Event<T>>)
    requires forall e <- es :: e.Keyboard? ==> e.present
    ensures Run(Start(cursor, true), es).seat == Run(Start(cursor, true), es).focused
    ensures Run(Start(cursor, true), es).keyboard
  {
    if es != [] {
      SeatFollowsFocus(cursor, es[..|es| - 1]);
      StepKeepsSeat(Run(Start(cursor, true), es[..|es| - 1]), es[|es| - 1]);
    }
  }
}
