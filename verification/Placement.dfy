/** Maximise and fullscreen requests of `xdg.c`: which output a window is put on. */
module Placement {
  import opened Prelude

  /** The area of one output in the layout, half open on both axes. */
  datatype Box = Box(x: int, y: int, width: int, height: int) {
    predicate Contains(px: int, py: int) {
      x <= px < x + width && y <= py < y + height
    }
  }

  /** Boxes of the outputs in layout order. */
  type Layout = seq<Box>

  ghost predicate Tiled(layout: Layout) {
    && (forall k :: 0 <= k < |layout| ==> layout[k].width > 0 && layout[k].height > 0)
    && forall i, j, px, py :: 0 <= i < j < |layout| && layout[i].Contains(px, py) ==> !layout[j].Contains(px, py)
  }

  function OutputFrom(layout: Layout, k: nat, px: int, py: int): (r: Option<nat>)
    ensures r.Some? ==> k <= r.value < |layout| && layout[r.value].Contains(px, py)
    ensures r.Some? ==> forall i :: k <= i < r.value ==> !layout[i].Contains(px, py)
    ensures r.None? ==> forall i :: k <= i < |layout| ==> !layout[i].Contains(px, py)
    decreases |layout| - k
  {
    if k >= |layout| then None
    else if layout[k].Contains(px, py) then Some(k)
    else OutputFrom(layout, k + 1, px, py)
  }

  /** `wlr_output_layout_output_at`: the first output whose box contains the point. */
  function OutputAt(layout: Layout, px: int, py: int): (r: Option<nat>)
    ensures r.Some? ==> r.value < |layout| && layout[r.value].Contains(px, py)
  {
    OutputFrom(layout, 0, px, py)
  }

  /** A client's request.  `current` is the state the client has committed, so the request toggles
      it; a fullscreen request may name an output. */
  datatype Request =
    | Maximize(current: bool)
    | Fullscreen(current: bool, output: Option<nat>)

  /** Position of the scene node and the last size and state flags sent to the client. */
  datatype Frame = Frame(x: int, y: int, width: int, height: int, maximized: bool, fullscreen: bool)

  /** A new window: no size was chosen for it and it is in neither state. */
  const NEW := Frame(0, 0, 0, 0, false, false)

  /** The output a request that enters the state chooses. */
  function Target(layout: Layout, f: Frame, r: Request): (k: Option<nat>) {
    if r.Fullscreen? && r.output.Some? then r.output
    else
      var under := OutputAt(layout, f.x, f.y);
      if under.Some? then under else if |layout| > 0 then Some(0) else None
  }

  /** `wlr_output_layout_get_box`: an output that is not in the layout has the empty box. */
  function BoxOf(layout: Layout, k: nat): Box {
    if k < |layout| then layout[k] else Box(0, 0, 0, 0)
  }

  function Flagged(f: Frame, r: Request): Frame {
    match r
    case Maximize(current) => f.(maximized := !current)
    case Fullscreen(current, _) => f.(fullscreen := !current)
  }

  function Handle(layout: Layout, f: Frame, r: Request): Frame {
    if r.current then Flagged(f, r).(width := 0, height := 0)
    else
      match Target(layout, f, r)
      case None => f
      case Some(k) =>
        var b := BoxOf(layout, k);
        Flagged(f, r).(x := b.x, y := b.y, width := b.width, height := b.height)
  }

  ghost predicate At(f: Frame, b: Box) { f.x == b.x && f.y == b.y }

  /** On the box, told its size, and told that it is in the requested state. */
  ghost predicate Fills(f: Frame, b: Box, r: Request) {
    At(f, b) && f.width == b.width && f.height == b.height && (if r.Maximize? then f.maximized else f.fullscreen)
  }

  /** A window whose node is at the corner of an output is on that output. */
  lemma CornerIsOn(layout: Layout, k: nat)
    requires Tiled(layout) && k < |layout|
    ensures OutputAt(layout, layout[k].x, layout[k].y) == Some(k)
  {
    assert layout[k].Contains(layout[k].x, layout[k].y);
  }

  predicate NamesNoOutput(r: Request) { r.Fullscreen? ==> r.output.None? }

  /** A request that names no output leaves a window at the corner of an output there, and fills
      that output if it enters a state. */
  lemma StaysOnOutput(layout: Layout, f: Frame, k: nat, r: Request)
    requires Tiled(layout) && k < |layout| && At(f, layout[k]) && NamesNoOutput(r)
    ensures At(Handle(layout, f, r), layout[k])
    ensures !r.current ==> Fills(Handle(layout, f, r), layout[k], r)
  {
    CornerIsOn(layout, k);
  }
}
