/** The scale-bar zoom of ui.c (`scale_bar_interaction`): two left clicks choose a new extent,
    a right click undoes the last zoom, the wheel shifts both ends. The start coordinate's
    "unset" sentinel F32_INFINITY is `None`; the saved extents are a stack, top last. The
    click position arrives already mapped to a world coordinate. */
module ScaleBars {
  import opened Base

  datatype Extent = Extent(min: real, max: real)

  datatype ScaleBar = ScaleBar(extent: Extent, start: Option<real>, saved: seq<Extent>,
                               scrollMin: real, scrollMax: real)

  /** The extent spanned by two coordinates, smaller end first. */
  function Sorted(a: real, b: real): (e: Extent)
    ensures e.min <= e.max
    ensures (e.min == a && e.max == b) || (e.min == b && e.max == a)
  {
    if a > b then Extent(b, a) else Extent(a, b)
  }

  /** A left click at world coordinate c (ui.c:2534-2563): the first records the start, the
      second saves the current extent and zooms to the span between the two. */
  function LeftClick(sb: ScaleBar, c: real): (r: ScaleBar)
    ensures sb.start.None? ==> r == sb.(start := Some(c))
    ensures sb.start.Some? ==>
              && r.start.None? && r.saved == sb.saved + [sb.extent]
              && r.extent.min <= r.extent.max
              && r.extent == Sorted(sb.start.value, c)
              && r.scrollMin == sb.scrollMin && r.scrollMax == sb.scrollMax
  {
    if sb.start.None? then sb.(start := Some(c))
    else sb.(extent := Sorted(sb.start.value, c), saved := sb.saved + [sb.extent], start := None)
  }

  /** A right click (ui.c:2565-2573): restore and drop the last saved extent if there is one;
      the start is cleared either way. */
  function RightClick(sb: ScaleBar): (r: ScaleBar)
    ensures r.start.None?
    ensures |sb.saved| == 0 ==> r == sb.(start := None)
    ensures |sb.saved| > 0 ==>
              && r.extent == sb.saved[|sb.saved| - 1]
              && r.saved == sb.saved[..|sb.saved| - 1]
    ensures r.scrollMin == sb.scrollMin && r.scrollMax == sb.scrollMax
  {
    if |sb.saved| == 0 then sb.(start := None)
    else sb.(extent := sb.saved[|sb.saved| - 1], saved := sb.saved[..|sb.saved| - 1], start := None)
  }

  /** A wheel move (ui.c:2575-2578): each end shifts by the wheel times its own scale. */
  function Wheel(sb: ScaleBar, w: real): (r: ScaleBar)
    ensures r.extent.min == sb.extent.min + w * sb.scrollMin
    ensures r.extent.max == sb.extent.max + w * sb.scrollMax
    ensures r.start == sb.start && r.saved == sb.saved
  {
    if w != 0.0 then
      sb.(extent := Extent(sb.extent.min + w * sb.scrollMin, sb.extent.max + w * sb.scrollMax))
    else sb
  }

  /** `scale_bar_interaction` (ui.c:2525-2580): the left click (with its world coordinate, if
      pressed), then the right click, then the wheel, in that order. */
  function Interact(sb: ScaleBar, left: Option<real>, right: bool, wheel: real): (r: ScaleBar)
    ensures right ==> r.start.None?
    ensures left.None? && !right && wheel == 0.0 ==> r == sb
    ensures |r.saved| <= |sb.saved| + 1
  {
    var s1 := if left.Some? then LeftClick(sb, left.value) else sb;
    var s2 := if right then RightClick(s1) else s1;
    Wheel(s2, wheel)
  }

  /** A zoom followed by an undo gives back the extent and the saved stack of before. */
  lemma ZoomThenUndo(sb: ScaleBar, a: real, b: real)
    requires sb.start.None?
    ensures RightClick(LeftClick(LeftClick(sb, a), b)) == sb
  {
    var zoomed := LeftClick(LeftClick(sb, a), b);
    assert zoomed.saved[..|zoomed.saved| - 1] == sb.saved;
  }

  /** Any number of zooms followed by as many undos gives back the scale bar. */
  lemma {:induction false} ZoomsThenUndos(sb: ScaleBar, clicks: seq<(real, real)>)
    requires sb.start.None?
    ensures Undos(Zooms(sb, clicks), |clicks|) == sb
    decreases |clicks|
  {
    if |clicks| > 0 {
      var c := clicks[0];
      var once := LeftClick(LeftClick(sb, c.0), c.1);
      ZoomsThenUndos(once, clicks[1..]);
      UndosSplit(Zooms(once, clicks[1..]), |clicks| - 1);
      ZoomThenUndo(sb, c.0, c.1);
    }
  }

  /** The zooms chosen by each pair of clicks of `clicks`, in order. */
  function Zooms(sb: ScaleBar, clicks: seq<(real, real)>): (r: ScaleBar)
    requires sb.start.None?
    ensures r.start.None? && |r.saved| == |sb.saved| + |clicks|
    ensures |clicks| > 0 ==> r.extent == Sorted(clicks[|clicks| - 1].0, clicks[|clicks| - 1].1)
    decreases |clicks|
  {
    if |clicks| == 0 then sb
    else Zooms(LeftClick(LeftClick(sb, clicks[0].0), clicks[0].1), clicks[1..])
  }

  function Undos(sb: ScaleBar, n: nat): (r: ScaleBar)
    decreases n
  {
    if n == 0 then sb else Undos(RightClick(sb), n - 1)
  }

  lemma {:induction false} UndosSplit(sb: ScaleBar, n: nat)
    ensures Undos(sb, n + 1) == RightClick(Undos(sb, n))
    decreases n
  {
    if n > 0 {
      UndosSplit(RightClick(sb), n - 1);
    }
  }
}
