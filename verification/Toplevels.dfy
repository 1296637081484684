/** The event handlers of `xdg.c` and the window part of `input.c` over the heap: an intrusive
    circular list, null pointers and fields updated in place.  Every handler is proved to take
    the step that `Windows` takes on values. */
module Toplevels {
  import opened Prelude
  import opened WlList
  import P = Placement
  import W = Windows

  /** What a toplevel holds besides its list link. */
  datatype Toplevel = Toplevel(mapped: bool, activated: bool, frame: P.Frame)

  const NEW := Toplevel(false, false, P.NEW)

  type Window = Link<Toplevel>

  /** `grabbed_toplevel` with `grab_x`, `grab_y`, `grab_node_x` and `grab_node_y`. */
  datatype Grab = Grab(window: Link?<Toplevel>, x: real, y: real, nodeX: int, nodeY: int)

  /** A button event sent on to the surface with pointer focus. */
  datatype ButtonEvent = ButtonEvent(to: Option<nat>, button: nat, pressed: bool)

  const NO_GRAB := Grab(null, 0.0, 0.0, 0, 0)

  ghost function Opt(p: Link?<Toplevel>): Option<Window> {
    if p == null then None else Some(p)
  }

  ghost function Mapped(d: map<Window, Toplevel>): set<Window> { set l | l in d && d[l].mapped }

  ghost function Activated(d: map<Window, Toplevel>): set<Window> { set l | l in d && d[l].activated }

  ghost function Frames(d: map<Window, Toplevel>): map<Window, P.Frame> { map l | l in d :: d[l].frame }

  /** Writing the state of one window changes each view at that window only. */
  lemma Written(d: map<Window, Toplevel>, t: Window, v: Toplevel)
    ensures Mapped(d[t := v]) == if v.mapped then Mapped(d) + {t} else Mapped(d) - {t}
    ensures Activated(d[t := v]) == if v.activated then Activated(d) + {t} else Activated(d) - {t}
    ensures Frames(d[t := v]) == Frames(d)[t := v.frame]
  {
  }

  lemma Rewritten(d: map<Window, Toplevel>, t: Window, v: Toplevel)
    requires t in d
    ensures v.mapped == d[t].mapped ==> Mapped(d[t := v]) == Mapped(d)
    ensures v.activated == d[t].activated ==> Activated(d[t := v]) == Activated(d)
    ensures v.frame == d[t].frame ==> Frames(d[t := v]) == Frames(d)
  {
    assert d[t := d[t]] == d;
    Written(d, t, v);
    Written(d, t, d[t]);
  }

  lemma Dropped(d: map<Window, Toplevel>, t: Window)
    ensures Mapped(d - {t}) == Mapped(d) - {t}
    ensures Activated(d - {t}) == Activated(d) - {t}
    ensures Frames(d - {t}) == Frames(d) - {t}
  {
  }

  lemma Absent(d: map<Window, Toplevel>, t: Window)
    requires t !in d
    ensures Mapped(d) - {t} == Mapped(d) && Activated(d) - {t} == Activated(d)
  {
  }

  lemma Twice(w: W.World<Window>, t: Window, a: P.Frame, b: P.Frame)
    ensures w.(frames := w.frames[t := a]).(frames := w.frames[t := a][t := b]) == w.(frames := w.frames[t := b])
  {
    assert w.frames[t := a][t := b] == w.frames[t := b];
  }

  class Compositor {
    /** `compositor->toplevels`, the list head. */
    const head: Window
    var focused: Link?<Toplevel>
    var grab: Grab
    var cursor: (real, real)
    var keyboard: bool
    var pointer: Option<nat>
    /** What the seat was last told. */
    ghost var seat: Link?<Toplevel>
    /** The button events it was told to send on. */
    ghost var buttons: seq<ButtonEvent>
    /** The windows on the list, in list order, and what they hold. */
    ghost var list: seq<Window>
    ghost var held: map<Window, Toplevel>

    ghost predicate Valid()
      reads this, head, list
    {
      && Listed(head, list, held)
      && (focused != null ==> focused in held)
      && (grab.window != null ==> grab.window in held)
    }

    ghost function View(): W.World<Window>
      reads this
    {
      W.World(list, Mapped(held), Activated(held), Opt(focused),
              W.Grab(Opt(grab.window), grab.x, grab.y, grab.nodeX, grab.nodeY),
              Frames(held), cursor, keyboard, Opt(seat), pointer)
    }

    /** `zen_xdg_init` and the input set-up. */
    constructor (cursor: (real, real), keyboard: bool)
      ensures Valid() && fresh(head) && View() == W.Start(cursor, keyboard) && buttons == []
    {
      head := new Link(NEW);
      focused, grab, seat, pointer := null, NO_GRAB, null, None;
      this.cursor, this.keyboard := cursor, keyboard;
      list, held, buttons := [], map[], [];
      new;
      assert [head] + list == [head];
    }

    // ----- Single writes -------------------------------------------------------------------

    method Write(t: Window, v: Toplevel)
      requires Valid() && t in held
      modifies this`held, t`data
      ensures Valid() && t.data == v && held == old(held)[t := v]
    {
      t.data := v;
      held := held[t := v];
    }

    /** `wlr_xdg_toplevel_set_activated`. */
    method SetActivated(t: Window, on: bool)
      requires Valid() && t in held
      modifies this`held, t`data
      ensures Valid() && held.Keys == old(held.Keys)
      ensures View() == old(View()).(
                activated := if on then old(View()).activated + {t} else old(View()).activated - {t})
    {
      Written(held, t, t.data.(activated := on));
      Rewritten(held, t, t.data.(activated := on));
      Write(t, t.data.(activated := on));
    }

    /** The mapped flag of the surface, which the protocol library changes before it calls the
        map and unmap handlers. */
    method SetMapped(t: Window, on: bool)
      requires Valid() && t in held
      modifies this`held, t`data
      ensures Valid() && held.Keys == old(held.Keys)
      ensures View() == old(View()).(mapped := if on then old(View()).mapped + {t} else old(View()).mapped - {t})
    {
      Written(held, t, t.data.(mapped := on));
      Rewritten(held, t, t.data.(mapped := on));
      Write(t, t.data.(mapped := on));
    }

    /** `wlr_scene_node_set_position`, `wlr_xdg_toplevel_set_size` and the two state setters. */
    method SetFrame(t: Window, f: P.Frame)
      requires Valid() && t in held
      modifies this`held, t`data
      ensures Valid() && t in held && t.data.frame == f
      ensures View() == old(View()).(frames := old(View()).frames[t := f])
    {
      Written(held, t, t.data.(frame := f));
      Rewritten(held, t, t.data.(frame := f));
      Write(t, t.data.(frame := f));
    }

    method SetFocused(t: Link?<Toplevel>)
      requires Valid() && (t != null ==> t in held)
      modifies this`focused
      ensures Valid() && View() == old(View()).(focused := Opt(t))
    {
      focused := t;
    }

    /** Keyboard enter or clear-focus on the seat. */
    method TellSeat(t: Link?<Toplevel>)
      requires Valid()
      modifies this`seat
      ensures Valid() && View() == old(View()).(seat := Opt(t))
    {
      seat := t;
    }

    method SetGrab(g: Grab)
      requires Valid() && (g.window != null ==> g.window in held)
      modifies this`grab
      ensures Valid() && View() == old(View()).(grab := W.Grab(Opt(g.window), g.x, g.y, g.nodeX, g.nodeY))
    {
      grab := g;
    }

    // ----- Focus ---------------------------------------------------------------------------

    /** Remove and reinsert at the head of the recency list. */
    method Raise(t: Window)
      requires Valid() && t in held
      modifies this`list, head, held.Keys
      ensures Valid() && View() == old(View()).(toplevels := [t] + Without(old(View()).toplevels, t))
    {
      MoveToFront(head, t, list, held);
      list := [t] + Without(list, t);
    }

    /** The part of `zen_xdg_focus_toplevel` for the toplevel that gains the focus. */
    method Activate(t: Window)
      requires Valid() && t in held
      modifies this`seat, this`list, this`held, head, held.Keys
      ensures Valid() && held.Keys == old(held.Keys)
      ensures View() == old(View()).(
                toplevels := [t] + Without(old(View()).toplevels, t),
                activated := old(View()).activated + {t},
                seat := if keyboard then Some(t) else old(View()).seat)
    {
      Raise(t);
      SetActivated(t, true);
      if keyboard {
        TellSeat(t);
      }
    }

    /** `zen_xdg_focus_toplevel`. */
    method FocusToplevel(toplevel: Link?<Toplevel>)
      requires Valid() && (toplevel != null ==> toplevel in held)
      modifies this`focused, this`seat, this`list, this`held, head, held.Keys
      ensures Valid() && held.Keys == old(held.Keys)
      ensures View() == W.Focus(old(View()), Opt(toplevel))
    {
      if focused == toplevel {
        return;
      }
      if focused != null {
        SetActivated(focused, false);
      }
      SetFocused(toplevel);
      if toplevel == null {
        TellSeat(null);
      } else {
        Activate(toplevel);
      }
    }

    // ----- Handlers ------------------------------------------------------------------------

    /** The scan of the unmap handler. */
    method NextMapped(t: Window) returns (next: Link?<Toplevel>)
      requires Valid()
      ensures next != null ==> next in held
      ensures Opt(next) == W.FirstIn(View().toplevels, View().mapped - {t})
    {
      Iteration(head, list, 0);
      var iter := head.next;
      ghost var k: nat := 0;
      ghost var among := View().mapped - {t};
      while iter != head
        invariant k <= |list| && iter == Nth(head, list, k)
        invariant W.FirstIn(list, among) == W.FirstIn(list[k..], among)
        decreases |list| - k
      {
        Iteration(head, list, k);
        assert list[k..][1..] == list[k + 1..] && iter in list;
        if iter != t && iter.data.mapped {
          return iter;
        }
        iter := iter.next;
        k := k + 1;
      }
      Iteration(head, list, k);
      assert list[k..] == [];
      next := null;
    }

    /** The scan of the destroy handler, which does not look at the mapped flag. */
    method NextOther(t: Window) returns (next: Link?<Toplevel>)
      requires Valid()
      ensures next != null ==> next in held && next != t
      ensures Opt(next) == W.FirstIn(View().toplevels, Elems(View().toplevels) - {t})
    {
      Iteration(head, list, 0);
      var iter := head.next;
      ghost var k: nat := 0;
      ghost var among := Elems(View().toplevels) - {t};
      while iter != head
        invariant k <= |list| && iter == Nth(head, list, k)
        invariant W.FirstIn(list, among) == W.FirstIn(list[k..], among)
        decreases |list| - k
      {
        Iteration(head, list, k);
        assert list[k..][1..] == list[k + 1..] && iter in list;
        if iter != t {
          return iter;
        }
        iter := iter.next;
        k := k + 1;
      }
      Iteration(head, list, k);
      assert list[k..] == [];
      next := null;
    }

    /** The new window enters at the head of the list. */
    method Enter(w: Window)
      requires Valid() && w != head && w !in list && !w.freed && w.data == NEW
      modifies this`list, this`held, head, w, held.Keys
      ensures Valid() && View() == W.Step(old(View()), W.New(w))
    {
      Written(held, w, w.data);
      Absent(held, w);
      Neighbours(head, head, list);
      PushFront(head, w, list, held);
      list, held := [w] + list, held[w := w.data];
    }

    /** `handle_new_xdg_toplevel`: nothing happens when memory or the scene node is not to be had,
        otherwise a new window, not mapped yet, enters at the head of the list. */
    method HandleNew(available: bool) returns (t: Link?<Toplevel>)
      requires Valid()
      modifies this`list, this`held, head, held.Keys
      ensures Valid() && (t == null <==> !available)
      ensures t == null ==> View() == old(View())
      ensures t != null ==> fresh(t) && t in held && W.Possible(old(View()), W.New(t))
      ensures t != null ==> View() == W.Step(old(View()), W.New(t))
    {
      if !available {
        return null;
      }
      var w := new Link(NEW);
      Enter(w);
      assert View().toplevels[0] == w;
      t := w;
    }

    /** `handle_toplevel_map`. */
    method HandleMap(t: Window)
      requires Valid() && t in held
      modifies this`focused, this`seat, this`list, this`held, head, held.Keys
      ensures Valid() && View() == W.Step(old(View()), W.Map(t))
    {
      SetMapped(t, true);
      FocusToplevel(t);
    }

    /** `handle_toplevel_unmap`. */
    method HandleUnmap(t: Window)
      requires Valid() && t in held
      modifies this`focused, this`seat, this`list, this`held, head, held.Keys
      ensures Valid() && View() == W.Step(old(View()), W.Unmap(t))
    {
      SetMapped(t, false);
      if focused == t {
        var next := NextMapped(t);
        assert View().mapped - {t} == View().mapped;
        FocusToplevel(next);
      }
    }

    /** If this toplevel was being interactively moved, the grab ends. */
    method CancelMove(t: Window)
      requires Valid()
      modifies this`grab
      ensures Valid() && grab.window != t
      ensures View() == old(View()).(
                grab := if old(View()).grab.window == Some(t) then W.NoGrab() else old(View()).grab)
    {
      if grab.window == t {
        SetGrab(NO_GRAB);
      }
    }

    /** Leave the list and free the structure. */
    method Unlist(t: Window)
      requires Valid() && t in held && focused != t && grab.window != t
      modifies this`list, this`held, head, held.Keys
      ensures Valid() && t !in held && t.freed
      ensures var w := old(View());
              View() == w.(toplevels := Without(w.toplevels, t), mapped := w.mapped - {t},
                           activated := w.activated - {t}, frames := w.frames - {t})
    {
      Dropped(held, t);
      ghost var list0, held0 := list, held;
      list, held := Without(list, t), held - {t};
      Discard(t, head, list0, held0);
    }

    /** Cancel the grab and forget the toplevel. */
    method Leave(t: Window)
      requires Valid() && t in held && focused != t
      modifies this`grab, this`list, this`held, head, held.Keys
      ensures Valid() && t !in held && t.freed
      ensures View() == W.Forget(old(View()), t)
    {
      CancelMove(t);
      Unlist(t);
    }

    /** If this toplevel was focused, the focus goes to the first other one. */
    method HandOn(t: Window)
      requires Valid()
      modifies this`focused, this`seat, this`list, this`held, head, held.Keys
      ensures Valid() && held.Keys == old(held.Keys) && focused != t
      ensures View() == W.HandOn(old(View()), t)
    {
      if focused == t {
        var next := NextOther(t);
        FocusToplevel(next);
      }
    }

    /** `handle_toplevel_destroy`. */
    method HandleDestroy(t: Window)
      requires Valid() && t in held
      modifies this`focused, this`seat, this`grab, this`list, this`held, head, held.Keys
      ensures Valid() && t !in held && t.freed
      ensures View() == W.Step(old(View()), W.Destroy(t))
    {
      HandOn(t);
      Leave(t);
    }

    /** `handle_toplevel_request_move`: cursor and node position are recorded.  `ready` says
        whether there are a cursor and a scene node. */
    method HandleRequestMove(t: Window, ready: bool)
      requires Valid() && t in held
      modifies this`grab
      ensures Valid() && View() == if ready then W.Step(old(View()), W.RequestMove(t)) else old(View())
    {
      if !ready {
        return;
      }
      SetGrab(Grab(t, cursor.0, cursor.1, t.data.frame.x, t.data.frame.y));
    }

    /** `wlr_seat_pointer_notify_button`. */
    method NotifyButton(button: nat, pressed: bool)
      requires Valid()
      modifies this`buttons
      ensures Valid() && View() == old(View())
      ensures buttons == old(buttons) + [ButtonEvent(pointer, button, pressed)]
    {
      buttons := buttons + [ButtonEvent(pointer, button, pressed)];
    }

    /** `handle_cursor_button`; `hit` is the toplevel the scene graph finds under the cursor. */
    method HandleButton(button: nat, pressed: bool, hit: Link?<Toplevel>)
      requires Valid() && (hit != null ==> hit in held)
      modifies this`focused, this`seat, this`grab, this`list, this`held, this`buttons, head, held.Keys
      ensures Valid() && View() == W.Step(old(View()), if pressed then W.Press(Opt(hit)) else W.Release)
      ensures buttons == old(buttons) + [ButtonEvent(pointer, button, pressed)]
    {
      if !pressed && grab.window != null {
        SetGrab(NO_GRAB);
      }
      if pressed && hit != null {
        FocusToplevel(hit);
      }
      NotifyButton(button, pressed);
    }

    method SetCursor(cursor: (real, real))
      requires Valid()
      modifies this`cursor
      ensures Valid() && View() == old(View()).(cursor := cursor)
    {
      this.cursor := cursor;
    }

    /** Reposition the grabbed toplevel by the displacement from the grab origin. */
    method Drag()
      requires Valid() && grab.window != null
      modifies this`held, grab.window`data
      ensures Valid()
      ensures View() == old(View()).(
                frames := W.Moved(old(View()).frames, grab.window, old(View()).grab, old(View()).cursor))
    {
      var dx := cursor.0 - grab.x;
      var dy := cursor.1 - grab.y;
      SetFrame(grab.window, grab.window.data.frame.(x := grab.nodeX + Trunc(dx), y := grab.nodeY + Trunc(dy)));
    }

    method SetPointer(under: Option<nat>)
      requires Valid()
      modifies this`pointer
      ensures Valid() && View() == old(View()).(pointer := under)
    {
      pointer := under;
    }

    /** `zen_input_process_cursor_motion`; `under` is the surface the scene graph finds under the
        cursor.  The pointer focus stays as it is while dragging. */
    method ProcessCursorMotion(under: Option<nat>)
      requires Valid()
      modifies this`held, this`pointer, head, held.Keys
      ensures Valid()
      ensures View() ==
              if old(grab.window) != null
              then old(View()).(
                     frames := W.Moved(old(View()).frames, old(grab.window), old(View()).grab, old(View()).cursor))
              else old(View()).(pointer := under)
    {
      if grab.window != null {
        Drag();
      } else {
        SetPointer(under);
      }
    }

    /** `handle_cursor_motion` and its absolute variant, the new position being given. */
    method HandleMotion(x: real, y: real, under: Option<nat>)
      requires Valid()
      modifies this`cursor, this`held, this`pointer, head, held.Keys
      ensures Valid() && View() == W.Step(old(View()), W.Motion(x, y, under))
    {
      SetCursor((x, y));
      ProcessCursorMotion(under);
    }

    /** The output of a request that enters a state: the one it names, or the one under the node,
        or the first. */
    method ChooseOutput(t: Window, layout: P.Layout, r: P.Request) returns (output: Option<nat>)
      ensures output == P.Target(layout, t.data.frame, r)
    {
      output := if r.Fullscreen? then r.output else None;
      if output.None? {
        output := P.OutputAt(layout, t.data.frame.x, t.data.frame.y);
      }
      if output.None? && |layout| > 0 {
        output := Some(0);
      }
    }

    /** Size and new state for the client. */
    method SendState(t: Window, width: int, height: int, r: P.Request)
      requires Valid() && t in held
      modifies this`held, t`data
      ensures Valid() && t in held
      ensures t.data.frame == P.Flagged(old(t.data.frame), r).(width := width, height := height)
      ensures View() == old(View()).(frames := old(View()).frames[t := t.data.frame])
    {
      var f := t.data.frame.(width := width, height := height);
      SetFrame(t, if r.Maximize? then f.(maximized := !r.current) else f.(fullscreen := !r.current));
    }

    /** The window takes up the box. */
    method Fill(t: Window, box: P.Box, r: P.Request)
      requires Valid() && t in held
      modifies this`held, t`data
      ensures Valid()
      ensures var f := P.Flagged(old(t.data.frame), r).(
                x := box.x, y := box.y, width := box.width, height := box.height);
              View() == old(View()).(frames := old(View()).frames[t := f])
    {
      ghost var w := View();
      SendState(t, box.width, box.height, r);
      Twice(w, t, t.data.frame, t.data.frame.(x := box.x, y := box.y));
      SetFrame(t, t.data.frame.(x := box.x, y := box.y));
    }

    /** `handle_toplevel_request_maximize` and `..._request_fullscreen`; nothing happens without an
        output layout. */
    method HandlePlacement(t: Window, outputs: Option<P.Layout>, r: P.Request)
      requires Valid() && t in held
      modifies this`held, t`data
      ensures Valid()
      ensures View() == match outputs
                        case None => old(View())
                        case Some(layout) => W.Step(old(View()), W.Place(t, layout, r))
    {
      if outputs.None? {
        return;
      }
      if r.current {
        SendState(t, 0, 0, r);
        return;
      }
      var output := ChooseOutput(t, outputs.value, r);
      if output.None? {
        assert View().frames[t := t.data.frame] == View().frames;
      } else {
        Fill(t, P.BoxOf(outputs.value, output.value), r);
      }
    }

    /** The drain loop of `zen_xdg_destroy`: every toplevel is unlinked and freed exactly once.
        The grab is not looked at, so the compositor is not in order afterwards if there was one. */
    method DestroyAll()
      requires Valid()
      modifies this`list, this`held, this`focused, head, held.Keys
      ensures list == [] && Listed(head, list, held) && focused == null
      ensures forall t <- old(list) :: t.freed
    {
      Drain(head, list);
      list, held, focused := [], map[], null;
      assert [head] + list == [head];
    }
  }
}
