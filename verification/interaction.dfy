/** The discrete interaction state of ui.c: which kind of interaction a press starts
    (`ui_begin_interact`), how it ends (`ui_end_interact`), and the value changes a click or
    a wheel step makes to toggles, cyclers, views and the frame-view ruler. Mouse coordinates
    already mapped to world space arrive as values. */
module Interaction {
  import Base

  /** `InteractionType` (ui.c:82-90). */
  datatype InteractionType = NoInteraction | Nop | Drag | Menu | Scroll | Set | Text

  /** The kind of the hot variable, with the two facts the dispatch reads from it. */
  datatype VarKind =
    | NullVar | Toggle | RegionSplit | UiView | Button | ScaleBar | FrameView | Cycler
    | Group(isMenu: bool)
    | BeamformerVariable(storesToggle: bool, acceptsText: bool)
    | ScaledNumber(acceptsText: bool)
    | Number(acceptsText: bool)

  /** Variables whose value the wheel changes once the dispatch has chosen `Scroll`. */
  predicate Scrollable(k: VarKind)
  {
    k.UiView? || k.FrameView? || k.Cycler? || k.ScaledNumber? || k.Number?
    || (k.BeamformerVariable? && !k.storesToggle)
  }

  /** Variables that may open the numeric text field. */
  predicate TextEditable(k: VarKind)
  {
    (k.ScaledNumber? || k.Number? || (k.BeamformerVariable? && !k.storesToggle)) && k.acceptsText
  }

  /** The hot variables for which the dispatch assigns no type: a button, a view without a
      wheel move, and a number that is neither scrolled nor clicked into for text entry. */
  predicate KeepsType(k: VarKind, scroll: bool, leftPressed: bool)
  {
    k.Button? || (k.UiView? && !scroll)
    || ((k.ScaledNumber? || k.Number? || (k.BeamformerVariable? && !k.storesToggle))
        && !scroll && !(leftPressed && k.acceptsText))
  }

  /** `ui_begin_interact` (ui.c:2625-2673): the interaction a press on the hot variable starts.
      `prev` is the type on entry, which survives where the switch assigns nothing. */
  function BeginInteract(prev: InteractionType, hot: Base.Option<VarKind>, scroll: bool, leftPressed: bool)
    : (r: InteractionType)
    ensures hot.None? || KeepsType(hot.value, scroll, leftPressed) ==> r == prev
    ensures hot.Some? && !KeepsType(hot.value, scroll, leftPressed) ==>
              && r != NoInteraction
              && (r == Scroll <==> scroll && Scrollable(hot.value))
              && (r == Text <==> TextEditable(hot.value) && !scroll && leftPressed)
              && (r == Menu <==> hot.value.Group? && hot.value.isMenu && leftPressed)
              && (r == Drag <==> hot.value.RegionSplit?)
              && (r == Nop <==> hot.value.NullVar?)
  {
    if hot.None? then prev
    else
      match hot.value
      case NullVar => Nop
      case Toggle => Set
      case RegionSplit => Drag
      case UiView => if scroll then Scroll else prev
      case Button => prev
      case ScaleBar => Set
      case FrameView => if scroll then Scroll else Set
      case Cycler => if scroll then Scroll else Set
      case Group(isMenu) => if leftPressed && isMenu then Menu else Set
      case BeamformerVariable(storesToggle, acceptsText) =>
        if storesToggle then Set
        else if scroll then Scroll
        else if leftPressed && acceptsText then Text
        else prev
      case ScaledNumber(acceptsText) =>
        if scroll then Scroll else if leftPressed && acceptsText then Text else prev
      case Number(acceptsText) =>
        if scroll then Scroll else if leftPressed && acceptsText then Text else prev
  }

  /** The type `ui_end_interact` leaves behind (ui.c:2741-2748): a child of a menu that does
      not close it returns to the menu; everything else ends the interaction. */
  function EndInteract(menuChild: bool, closesMenu: bool): (r: InteractionType)
    ensures r == Menu <==> menuChild && !closesMenu
    ensures r != Menu ==> r == NoInteraction
  {
    if menuChild && !closesMenu then Menu else NoInteraction
  }

  /** The press handling of `ui_interact` (ui.c:2758-2762): a running interaction is ended
      before the next one begins. */
  function Press(current: InteractionType, menuChild: bool, closesMenu: bool,
                 hot: Base.Option<VarKind>, scroll: bool, leftPressed: bool): (r: InteractionType)
    ensures current == NoInteraction ==> r == BeginInteract(NoInteraction, hot, scroll, leftPressed)
    ensures current != Text && r == Text ==> hot.Some? && TextEditable(hot.value) && !scroll && leftPressed
    ensures current != Drag && r == Drag ==> hot.Some? && hot.value.RegionSplit?
  {
    var entry := if current != NoInteraction then EndInteract(menuChild, closesMenu) else current;
    BeginInteract(entry, hot, scroll, leftPressed)
  }

  /** The interaction a press interrupts never shapes the one it starts: any two running
      interactions lead to the same result, and outside an open menu that result is what a
      press from no interaction gives. */
  lemma PressForgetsCurrent(a: InteractionType, b: InteractionType, menuChild: bool, closesMenu: bool,
                            hot: Base.Option<VarKind>, scroll: bool, leftPressed: bool)
    requires a != NoInteraction && b != NoInteraction
    ensures Press(a, menuChild, closesMenu, hot, scroll, leftPressed)
            == Press(b, menuChild, closesMenu, hot, scroll, leftPressed)
    ensures !menuChild || closesMenu ==>
              Press(a, menuChild, closesMenu, hot, scroll, leftPressed)
              == Press(NoInteraction, menuChild, closesMenu, hot, scroll, leftPressed)
  {
  }

  /** A press that hits nothing, or a variable for which the switch assigns no type, only
      ends the running interaction: back to the menu inside one that stays open, else none. */
  lemma PressOnKeptVariableEnds(current: InteractionType, menuChild: bool, closesMenu: bool,
                                hot: Base.Option<VarKind>, scroll: bool, leftPressed: bool)
    requires current != NoInteraction
    requires hot.None? || KeepsType(hot.value, scroll, leftPressed)
    ensures Press(current, menuChild, closesMenu, hot, scroll, leftPressed) == EndInteract(menuChild, closesMenu)
    ensures Press(current, menuChild, closesMenu, hot, scroll, leftPressed) == Menu <==> menuChild && !closesMenu
  {
  }

  /** A toggle click or scroll (ui.c:2396, ui.c:2685): the flag flips. */
  function Toggled(b: bool): (r: bool)
    ensures r != b
  {
    !b
  }

  /** Two flips give the flag back. */
  lemma ToggleInvolution(b: bool)
    ensures Toggled(Toggled(b)) == b
  {
  }

  /** A cycler click (ui.c:2689-2692): `*state += 1` on a `u32`, then `%= cycle_length`. */
  function CyclerClick(state: int, len: int): (r: int)
    requires Base.IsU32(state) && 0 < len < Base.U32_LIMIT
    ensures 0 <= r < len
    ensures state < len ==> r == if state == len - 1 then 0 else state + 1
  {
    if state < len then
      StepMod(state + 1, len);
      Base.WrapU32(state + 1) % len
    else Base.WrapU32(state + 1) % len
  }

  /** A cycler wheel step as ui.c:2420-2423 writes it: `-1` converted to `u32` is 2^32 - 1, so
      stepping down from 0 wraps to 2^32 - 1 before the `%`. */
  function CyclerScrollAsWritten(state: int, len: int, up: bool): (r: int)
    requires Base.IsU32(state) && 0 < len < Base.U32_LIMIT
    ensures 0 <= r < len
    ensures up && state < len ==> r == CyclerClick(state, len)
    ensures !up && 0 < state < len ==> r == state - 1
  {
    if !up && 0 < state < len then
      Base.QuotientForm(1, Base.U32_LIMIT, state - 1);
      StepMod(state - 1, len);
      Base.WrapU32(state + (Base.U32_LIMIT - 1)) % len
    else Base.WrapU32(state + (if up then 1 else Base.U32_LIMIT - 1)) % len
  }

  /** With three states, stepping down from the first stays on it instead of reaching the
      last one. */
  lemma CyclerScrollDownFromZero()
    ensures CyclerScrollAsWritten(0, 3, false) == 0
    ensures CyclerScroll(0, 3, false) == 2
  {
  }

  /** The wheel step the cycler evidently intends: one position up or down, cyclically. */
  function CyclerScroll(state: int, len: int, up: bool): (r: int)
    requires 0 <= state < len
    ensures 0 <= r < len
    ensures up ==> r == if state == len - 1 then 0 else state + 1
    ensures !up ==> r == if state == 0 then len - 1 else state - 1
  {
    if up then
      StepMod(state + 1, len);
      (state + 1) % len
    else if state == 0 then
      StepMod(len - 1, len);
      (state + len - 1) % len
    else
      Base.QuotientForm(1, len, state - 1);
      (state + len - 1) % len
  }

  /** A step down undoes a step up, and a step up undoes a step down. */
  lemma CyclerScrollInverse(state: int, len: int)
    requires 0 <= state < len
    ensures CyclerScroll(CyclerScroll(state, len, true), len, false) == state
    ensures CyclerScroll(CyclerScroll(state, len, false), len, true) == state
  {
  }

  /** The code as written agrees with the intended step except on a downward step from 0,
      and there it agrees exactly when the cycle length divides 2^32. */
  lemma CyclerScrollAgrees(state: int, len: int, up: bool)
    requires 0 <= state < len < Base.U32_LIMIT
    ensures up || state > 0 ==> CyclerScrollAsWritten(state, len, up) == CyclerScroll(state, len, up)
    ensures !up && state == 0 ==>
              (CyclerScrollAsWritten(state, len, up) == CyclerScroll(state, len, up)
               <==> Base.U32_LIMIT % len == 0)
  {
    if !up && state == 0 {
      var x := Base.U32_LIMIT - 1;
      assert CyclerScrollAsWritten(state, len, up) == x % len;
      if Base.U32_LIMIT % len == 0 {
        var q := Base.U32_LIMIT / len;
        assert Base.U32_LIMIT == q * len;
        assert x == (q - 1) * len + (len - 1);
        Base.QuotientForm(q - 1, len, len - 1);
      }
      if x % len == len - 1 {
        var q := x / len;
        assert Base.U32_LIMIT == (q + 1) * len;
        Base.MulDivExact(q + 1, len);
      }
    }
  }

  /** Reducing a value in [0, m] modulo m only maps m to 0. */
  lemma StepMod(x: int, m: int)
    requires 0 <= x <= m && m > 0
    ensures x % m == if x == m then 0 else x
  {
    if x == m {
      Base.QuotientForm(1, m, 0);
    } else {
      Base.QuotientForm(0, m, x);
    }
  }

  const UI_SCROLL_SPEED: real := 12.0

  /** A view's wheel step (ui.c:2424-2427): the offset moves by 12 per unit of wheel and never
      goes below 0. */
  function ViewScroll(offset: real, delta: real): (r: real)
    ensures r >= 0.0
    ensures offset + UI_SCROLL_SPEED * delta >= 0.0 ==> r == offset + UI_SCROLL_SPEED * delta
    ensures offset + UI_SCROLL_SPEED * delta < 0.0 ==> r == 0.0
  {
    var o := offset + UI_SCROLL_SPEED * delta;
    if o > 0.0 then o else 0.0
  }

  /** Scrolling back by the same amount returns to the offset, unless the first step was
      cut off at 0. */
  lemma ViewScrollBack(offset: real, delta: real)
    requires offset >= 0.0 && offset + UI_SCROLL_SPEED * delta >= 0.0
    ensures ViewScroll(ViewScroll(offset, delta), -delta) == offset
  {
  }

  /** `CLAMP(x, lo, hi)`. */
  function Clamp(x: real, lo: real, hi: real): (r: real)
    ensures lo <= hi ==> lo <= r <= hi
    ensures lo <= x <= hi ==> r == x
    ensures x < lo ==> r == lo
    ensures lo <= x && hi < x ==> r == hi
  {
    if x < lo then lo else if x > hi then hi else x
  }

  /** The values `scroll_interaction` changes (ui.c:2396-2430). */
  datatype Value =
    | ToggleValue(b: bool)
    | NumberValue(f: real)
    | IntValue(i: int)
    | UIntValue(u: int)
    | ScaledValue(val: real, scale: real)
    | FrameViewValue(threshold: real, needsUpdate: bool)
    | BeamformerValue(stored: real, scrollScale: real, lo: real, hi: real)
    | CyclerValue(state: int, len: int)
    | ViewValue(offset: real)

  predicate ValidValue(v: Value)
  {
    && (v.UIntValue? ==> Base.IsU32(v.u))
    && (v.CyclerValue? ==> 0 <= v.state < v.len < Base.U32_LIMIT)
  }

  /** `scroll_interaction` (ui.c:2396-2430), with the intended cycler step (the step as written
      is `CyclerScrollAsWritten`). The integer kinds add in floating point and convert back
      by truncation toward zero; a `u32` takes the result modulo 2^32. */
  function ScrollInteraction(v: Value, delta: real): (r: Value)
    requires ValidValue(v)
    ensures ValidValue(r)
    ensures v.ToggleValue? ==> r == ToggleValue(!v.b)
    ensures v.NumberValue? ==> r == NumberValue(v.f + delta)
    ensures v.IntValue? ==>
              && r.IntValue?
              && (v.i as real + delta >= 0.0 ==> r.i as real <= v.i as real + delta < r.i as real + 1.0)
              && (v.i as real + delta < 0.0 ==> r.i as real - 1.0 < v.i as real + delta <= r.i as real)
    ensures v.UIntValue? ==>
              && r.UIntValue?
              && (0.0 <= v.u as real + delta < Base.U32_LIMIT as real ==>
                    r.u as real <= v.u as real + delta < r.u as real + 1.0)
    ensures v.ScaledValue? ==> r.ScaledValue? && r.scale == v.scale && r.val == v.val + delta * v.scale
    ensures v.FrameViewValue? ==> r == FrameViewValue(v.threshold + delta, true)
    ensures v.BeamformerValue? ==>
              && r.BeamformerValue? && r.lo == v.lo && r.hi == v.hi && r.scrollScale == v.scrollScale
              && (v.lo <= v.hi ==> v.lo <= r.stored <= v.hi)
              && (var x := v.stored + delta * v.scrollScale;
                  && (x < v.lo ==> r.stored == v.lo)
                  && (v.lo <= x && v.hi < x ==> r.stored == v.hi)
                  && (v.lo <= x <= v.hi ==> r.stored == x))
    ensures v.CyclerValue? ==>
              && r.CyclerValue? && r.len == v.len && 0 <= r.state < r.len
              && (delta > 0.0 ==> r.state == if v.state == v.len - 1 then 0 else v.state + 1)
              && (delta <= 0.0 ==> r.state == if v.state == 0 then v.len - 1 else v.state - 1)
    ensures v.ViewValue? ==>
              && r.ViewValue? && r.offset >= 0.0
              && (v.offset + UI_SCROLL_SPEED * delta >= 0.0 ==> r.offset == v.offset + UI_SCROLL_SPEED * delta)
              && (v.offset + UI_SCROLL_SPEED * delta < 0.0 ==> r.offset == 0.0)
  {
    match v
    case ToggleValue(b) => ToggleValue(Toggled(b))
    case NumberValue(f) => NumberValue(f + delta)
    case IntValue(i) => IntValue(Base.Truncate(i as real + delta))
    case UIntValue(u) => UIntValue(ScrollU32(u, delta))
    case ScaledValue(val, scale) => ScaledValue(val + delta * scale, scale)
    case FrameViewValue(threshold, _) => FrameViewValue(threshold + delta, true)
    case BeamformerValue(_, _, _, _) =>
      v.(stored := Clamp(v.stored + delta * v.scrollScale, v.lo, v.hi))
    case CyclerValue(state, len) => CyclerValue(CyclerScroll(state, len, delta > 0.0), len)
    case ViewValue(offset) => ViewValue(ViewScroll(offset, delta))
  }

  /** `u32 += f32`: the sum truncated toward zero and taken modulo 2^32. */
  function ScrollU32(u: int, delta: real): (r: int)
    ensures Base.IsU32(r)
    ensures 0.0 <= u as real + delta < Base.U32_LIMIT as real ==> r as real <= u as real + delta < r as real + 1.0
  {
    var t := Base.Truncate(u as real + delta);
    if 0.0 <= u as real + delta < Base.U32_LIMIT as real then
      assert 0 <= t < Base.U32_LIMIT;
      Base.WrapU32(t)
    else Base.WrapU32(t)
  }

  /** A wheel step and the opposite step cancel: every kind returns to its value (a frame
      view keeps its redraw request), provided the first step was not cut off by a clamp,
      the integer kinds move by a whole number, and the delta is not 0, which steps a
      cycler down both times. */
  lemma ScrollThenScrollBack(v: Value, delta: real)
    requires ValidValue(v) && delta != 0.0
    requires v.IntValue? || v.UIntValue? ==> delta == delta.Floor as real
    requires v.UIntValue? ==> 0.0 <= v.u as real + delta < Base.U32_LIMIT as real
    requires v.ViewValue? ==> v.offset >= 0.0 && v.offset + UI_SCROLL_SPEED * delta >= 0.0
    requires v.BeamformerValue? ==>
               v.lo <= v.stored <= v.hi && v.lo <= v.stored + delta * v.scrollScale <= v.hi
    ensures var back := ScrollInteraction(ScrollInteraction(v, delta), -delta);
            if v.FrameViewValue? then back == v.(needsUpdate := true) else back == v
  {
    hide ScrollInteraction;
    if v.FrameViewValue? {
      FrameViewBack(v, delta);
    } else {
      var back := ScrollInteraction(ScrollInteraction(v, delta), -delta);
      assert back == v by {
        match v
        case ToggleValue(_) => ToggleBack(v, delta);
        case NumberValue(_) => NumberBack(v, delta);
        case CyclerValue(_, _) => CyclerBack(v, delta);
        case IntValue(_) => IntBack(v, delta);
        case UIntValue(_) => UIntBack(v, delta);
        case BeamformerValue(_, _, _, _) => StoredBack(v, delta);
        case ScaledValue(_, _) => ScaledBack(v, delta);
        case ViewValue(_) => ViewBack(v, delta);
      }
    }
  }

  lemma FrameViewBack(v: Value, delta: real)
    requires ValidValue(v) && v.FrameViewValue?
    ensures ScrollInteraction(ScrollInteraction(v, delta), -delta) == v.(needsUpdate := true)
  {
  }

  lemma ToggleBack(v: Value, delta: real)
    requires ValidValue(v) && v.ToggleValue?
    ensures ScrollInteraction(ScrollInteraction(v, delta), -delta) == v
  {
  }

  lemma NumberBack(v: Value, delta: real)
    requires ValidValue(v) && v.NumberValue?
    ensures ScrollInteraction(ScrollInteraction(v, delta), -delta) == v
  {
  }

  lemma CyclerBack(v: Value, delta: real)
    requires ValidValue(v) && v.CyclerValue? && delta != 0.0
    ensures ScrollInteraction(ScrollInteraction(v, delta), -delta) == v
  {
    CyclerScrollInverse(v.state, v.len);
  }

  lemma ViewBack(v: Value, delta: real)
    requires ValidValue(v) && v.ViewValue? && v.offset >= 0.0 && v.offset + UI_SCROLL_SPEED * delta >= 0.0
    ensures ScrollInteraction(ScrollInteraction(v, delta), -delta) == v
  {
    ViewScrollBack(v.offset, delta);
  }

  lemma StoredBack(v: Value, delta: real)
    requires ValidValue(v) && v.BeamformerValue?
    requires v.lo <= v.stored <= v.hi && v.lo <= v.stored + delta * v.scrollScale <= v.hi
    ensures ScrollInteraction(ScrollInteraction(v, delta), -delta) == v
  {
    var x := v.stored + delta * v.scrollScale;
    assert ScrollInteraction(v, delta) == v.(stored := x);
    Cancel(v.stored, delta, v.scrollScale);
    assert x + -delta * v.scrollScale == v.stored;
  }

  lemma ScaledBack(v: Value, delta: real)
    requires ValidValue(v) && v.ScaledValue?
    ensures ScrollInteraction(ScrollInteraction(v, delta), -delta) == v
  {
    Cancel(v.val, delta, v.scale);
  }

  lemma IntBack(v: Value, delta: real)
    requires ValidValue(v) && v.IntValue? && delta == delta.Floor as real
    ensures ScrollInteraction(ScrollInteraction(v, delta), -delta) == v
  {
    var n := delta.Floor;
    var w := ScrollInteraction(v, delta);
    WholeStep(v.i as real + delta, w.i, v.i + n);
    var back := ScrollInteraction(w, -delta);
    WholeStep(w.i as real + -delta, back.i, v.i);
  }

  lemma UIntBack(v: Value, delta: real)
    requires ValidValue(v) && v.UIntValue? && delta == delta.Floor as real
    requires 0.0 <= v.u as real + delta < Base.U32_LIMIT as real
    ensures ScrollInteraction(ScrollInteraction(v, delta), -delta) == v
  {
    var n := delta.Floor;
    var w := ScrollInteraction(v, delta);
    WholeStep(v.u as real + delta, w.u, v.u + n);
    var back := ScrollInteraction(w, -delta);
    WholeStep(w.u as real + -delta, back.u, v.u);
  }

  /** Truncation leaves a whole number alone. */
  lemma WholeStep(x: real, t: int, whole: int)
    requires x == whole as real
    ensures t as real <= x < t as real + 1.0 ==> t == whole
    ensures t as real - 1.0 < x <= t as real ==> t == whole
  {
  }

  lemma Cancel(x: real, delta: real, scale: real)
    ensures x + delta * scale + -delta * scale == x
  {
  }

  /** `RulerState` (ui.c:92-96). */
  datatype RulerState = RulerNone | RulerStart | RulerHold

  datatype Point = Point(x: real, z: real)

  /** `Ruler` (ui.c:98-102). */
  datatype Ruler = Ruler(start: Point, end: Point, state: RulerState)

  /** A frame-view click (ui.c:2696-2710): the state advances; entering START records the start
      point, entering HOLD the end point, and the step past HOLD returns to NONE. */
  function RulerClick(r: Ruler, p: Point): (r2: Ruler)
    ensures r.state == RulerNone ==> r2 == Ruler(p, r.end, RulerStart)
    ensures r.state == RulerStart ==> r2 == Ruler(r.start, p, RulerHold)
    ensures r.state == RulerHold ==> r2 == r.(state := RulerNone)
  {
    match r.state
    case RulerNone => r.(start := p, state := RulerStart)
    case RulerStart => r.(end := p, state := RulerHold)
    case RulerHold => r.(state := RulerNone)
  }

  /** Three clicks from NONE measure from the first point to the second and come back to NONE. */
  lemma RulerCycle(r: Ruler, a: Point, b: Point, c: Point)
    requires r.state == RulerNone
    ensures RulerClick(RulerClick(RulerClick(r, a), b), c) == Ruler(a, b, RulerNone)
  {
  }
}
