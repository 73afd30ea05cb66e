/**
 The single-image viewer of src/ImagePairScreen.cpp and
 include/ImagePairScreen.h: two full-screen rectangles (TV and DRC) side by
 side, a two-state toggle driven by the arrow button, and a slide of
 `SCREEN_WIDTH / animationSteps` pixels per `render` until the transition
 snaps to the resting layout. Only the rectangles' x coordinates move; the
 textures and the drawing are not modelled.
 */
module ImagePairScreen {
  import opened CArith
  import Grid
  import ButtonWidget

  datatype SingleImageState = TV | DRC

  /** The arrow button's horizontal flip setting. */
  datatype Flip = FlipNone | FlipHorizontal

  const ScreenWidth: int := Grid.ScreenWidth
  const DefaultAnimationSteps: int := 50
  /** `arrowRect` = {x, SCREEN_HEIGHT / 2 - 145, 290, 290}. */
  const ArrowY: int := Grid.ScreenHeight / 2 - 145
  const ArrowSize: int := 290
  /** Arrow x when showing TV: `SCREEN_WIDTH - (SCREEN_WIDTH / 3 / 2)`. */
  const ArrowRightX: int := ScreenWidth - ScreenWidth / 3 / 2

  datatype Screen = Screen(
    state: SingleImageState,
    tvX: int,
    drcX: int,
    animationSteps: int,
    animationStep: int,
    arrowVisible: bool,
    arrowX: int,
    arrowFlip: Flip,
    arrow: ButtonWidget.Button)

  predicate Valid(s: Screen) {
    && s.animationSteps > 0
    && 0 <= s.animationStep <= s.animationSteps
    && ButtonWidget.Valid(s.arrow)
  }

  /** The resting layout of a state: the shown image at x = 0, the other one
      a screen width away, no transition, arrow visible. */
  predicate AtRest(s: Screen) {
    && s.animationStep == 0
    && s.arrowVisible
    && (s.state == TV ==> s.tvX == 0 && s.drcX == ScreenWidth)
    && (s.state == DRC ==> s.tvX == -ScreenWidth && s.drcX == 0)
  }

  /** The constructor; `pressedLevel` is the arrow button's inflation depth. */
  function NewScreen(pressedLevel: int): (s: Screen)
    requires pressedLevel >= 1
    ensures Valid(s) && AtRest(s) && s.state == TV
    ensures s.animationSteps == 50 && s.tvX == 0 && s.drcX == ScreenWidth
    ensures s.arrow.x == s.arrow.originalX == s.arrowX == 0 && s.arrow.y == ArrowY
    ensures !ButtonWidget.IsAnimationInProgress(s.arrow)
  {
    var b := ButtonWidget.NewButton(0, ArrowY, ArrowSize, ArrowSize, pressedLevel);
    Screen(TV, 0, ScreenWidth, DefaultAnimationSteps, 0, true, 0, FlipNone,
           ButtonWidget.SetRect(b, 0, ArrowY, ArrowSize, ArrowSize))
  }

  /** `setImagePair`: back to the TV image at rest with the arrow rectangle at x = 0. */
  function SetImagePair(s: Screen): (s': Screen)
    requires Valid(s)
    ensures Valid(s') && AtRest(s') && s'.state == TV
    ensures s'.tvX == 0 && s'.drcX == ScreenWidth && s'.animationStep == 0 && s'.arrowVisible
    ensures s'.arrowX == 0 && s'.arrow.x == 0 && s'.arrow.y == ArrowY
    ensures s'.animationSteps == s.animationSteps && s'.arrowFlip == s.arrowFlip
    ensures s'.arrow.touching == s.arrow.touching && s'.arrow.level == s.arrow.level
  {
    s.(state := TV, arrowX := 0, tvX := 0, drcX := ScreenWidth, animationStep := 0, arrowVisible := true,
       arrow := ButtonWidget.SetRect(s.arrow, 0, ArrowY, ArrowSize, ArrowSize))
  }

  /** The arrow's click callback: flip the state, (re)start the slide, hide the
      arrow. It runs whenever the arrow button clicks, even mid-transition. */
  function ArrowClick(s: Screen): (s': Screen)
    requires Valid(s)
    ensures Valid(s')
    ensures s'.state != s.state
    ensures s'.animationStep == 1 && !s'.arrowVisible
    ensures s'.tvX == s.tvX && s'.drcX == s.drcX && s'.arrow == s.arrow
  {
    s.(state := if s.state == TV then DRC else TV, animationStep := 1, arrowVisible := false)
  }

  lemma ArrowClickTwiceRestoresState(s: Screen)
    requires Valid(s)
    ensures ArrowClick(ArrowClick(s)) == s.(animationStep := 1, arrowVisible := false)
  {
  }

  /** The per-frame slide: one step of the transition, snapping to rest once
      the step counter passes `animationSteps`. */
  function Slide(s: Screen): (s': Screen)
    requires Valid(s)
    ensures Valid(s')
    ensures s.animationStep == 0 ==> s' == s
    ensures s'.state == s.state && s'.arrow == s.arrow && s'.arrowX == s.arrowX
    ensures s'.animationSteps == s.animationSteps && s'.arrowFlip == s.arrowFlip
    ensures s.drcX - s.tvX == ScreenWidth ==> s'.drcX - s'.tvX == ScreenWidth
    ensures 0 < s.animationStep < s.animationSteps ==>
      && s'.animationStep == s.animationStep + 1
      && s'.arrowVisible == s.arrowVisible
      && s'.tvX == s.tvX + (if s.state == TV then 1 else -1) * CDiv(ScreenWidth, s.animationSteps)
      && s'.drcX == s.drcX + (if s.state == TV then 1 else -1) * CDiv(ScreenWidth, s.animationSteps)
    ensures s.animationStep == s.animationSteps ==> AtRest(s')
  {
    if 0 < s.animationStep <= s.animationSteps then
      var slide := CDiv(ScreenWidth, s.animationSteps);
      var dx := if s.state == TV then slide else -slide;
      var moved := s.(tvX := s.tvX + dx, drcX := s.drcX + dx, animationStep := s.animationStep + 1);
      if moved.animationStep > s.animationSteps then
        if s.state == TV then moved.(tvX := 0, drcX := ScreenWidth, animationStep := 0, arrowVisible := true)
        else moved.(tvX := -ScreenWidth, drcX := 0, animationStep := 0, arrowVisible := true)
      else moved
    else s
  }

  /** Where `render` puts the visible arrow: right edge unflipped for TV, left
      edge mirrored for DRC. */
  function PlaceArrow(s: Screen): (s': Screen)
    requires Valid(s)
    ensures Valid(s')
    ensures s.state == TV ==> s'.arrowX == 1600 && s'.arrowFlip == FlipNone
    ensures s.state == DRC ==> s'.arrowX == 0 && s'.arrowFlip == FlipHorizontal
    ensures s'.arrow.x == s'.arrow.originalX == s'.arrowX && s'.arrow.y == ArrowY
    ensures s'.(arrowX := s.arrowX, arrowFlip := s.arrowFlip, arrow := s.arrow) == s
  {
    var x := if s.state == TV then ArrowRightX else 0;
    s.(arrowX := x, arrowFlip := if s.state == TV then FlipNone else FlipHorizontal,
       arrow := ButtonWidget.SetRect(s.arrow, x, ArrowY, ArrowSize, ArrowSize))
  }

  /** `render`: slide, then (unless the arrow is mid-press) place the arrow if visible. */
  function Render(s: Screen): (s': Screen)
    requires Valid(s)
    ensures Valid(s')
    ensures s.drcX - s.tvX == ScreenWidth ==> s'.drcX - s'.tvX == ScreenWidth
    ensures s.animationStep == 0 ==> s'.tvX == s.tvX && s'.drcX == s.drcX && s'.animationStep == 0
    ensures var slid := Slide(s);
      && s'.state == slid.state && s'.tvX == slid.tvX && s'.drcX == slid.drcX
      && s'.animationStep == slid.animationStep && s'.arrowVisible == slid.arrowVisible
    ensures var slid := Slide(s);
      if ButtonWidget.IsAnimationInProgress(s.arrow) || !slid.arrowVisible then s' == slid else s' == PlaceArrow(slid)
  {
    var slid := Slide(s);
    if ButtonWidget.IsAnimationInProgress(slid.arrow) then slid
    else if slid.arrowVisible then PlaceArrow(slid)
    else slid
  }

  /** `handleEvent`: the event goes to the arrow button even while the arrow
      is hidden; a click of the button runs the toggle. */
  function HandleEvent(s: Screen, e: ButtonWidget.Event): (s': Screen)
    requires Valid(s)
    ensures Valid(s')
    // the event only reaches the arrow; the rectangles and the transition's
    // length stay put
    ensures s'.arrow == ButtonWidget.HandleEvent(s.arrow, e).button
    ensures s'.tvX == s.tvX && s'.drcX == s.drcX && s'.animationSteps == s.animationSteps
    ensures s'.arrowX == s.arrowX && s'.arrowFlip == s.arrowFlip
    // the state toggles exactly when the arrow clicks, and a toggle restarts the slide
    ensures s'.state != s.state <==> ButtonWidget.InflateRelease in ButtonWidget.HandleEvent(s.arrow, e).hooks
    ensures s'.state != s.state ==> s'.animationStep == 1 && !s'.arrowVisible
    ensures s'.state == s.state ==> s'.animationStep == s.animationStep && s'.arrowVisible == s.arrowVisible
  {
    var st := ButtonWidget.HandleEvent(s.arrow, e);
    var s1 := s.(arrow := st.button);
    if ButtonWidget.InflateRelease in st.hooks then ArrowClick(s1) else s1
  }

  /** The viewer after a run of events, with the number of arrow clicks. */
  function HandleEvents(s: Screen, es: seq<ButtonWidget.Event>): (r: (Screen, nat))
    requires Valid(s)
    ensures Valid(r.0)
    decreases |es|
  {
    if |es| == 0 then (s, 0)
    else
      var st := ButtonWidget.HandleEvent(s.arrow, es[0]);
      var rest := HandleEvents(HandleEvent(s, es[0]), es[1..]);
      (rest.0, rest.1 + if ButtonWidget.InflateRelease in st.hooks then 1 else 0)
  }

  /** A finger pressed on the arrow, held until it is fully inflated and
      lifted there clicks it once: the viewer toggles exactly once, the slide
      restarts, and nothing else but the arrow button changes. */
  lemma ViewerPressHoldReleaseTogglesOnce(s: Screen, px: int, py: int)
    requires Valid(s) && !s.arrow.touching && ButtonWidget.IsPointInside(s.arrow, px, py)
    ensures var es := [ButtonWidget.FingerDown(px, py)]
        + seq(s.arrow.top - 1, _ => ButtonWidget.FingerMotion(px, py)) + [ButtonWidget.FingerUp(px, py)];
      var r := HandleEvents(s, es);
      && r.1 == 1
      && r.0.state != s.state
      && r.0 == ArrowClick(s.(arrow := r.0.arrow))
  {
    var tail := seq(s.arrow.top - 1, _ => ButtonWidget.FingerMotion(px, py)) + [ButtonWidget.FingerUp(px, py)];
    var es := [ButtonWidget.FingerDown(px, py)]
      + seq(s.arrow.top - 1, _ => ButtonWidget.FingerMotion(px, py)) + [ButtonWidget.FingerUp(px, py)];
    var st := ButtonWidget.HandleEvent(s.arrow, es[0]);
    assert ButtonWidget.InflateRelease !in st.hooks;
    assert es[1..] == tail;
    var s1 := HandleEvent(s, es[0]);
    assert s1 == s.(arrow := s1.arrow);
    ViewerHoldThenRelease(s1, s, px, py, s.arrow.top - 1);
    assert HandleEvents(s, es).0 == HandleEvents(s1, tail).0;
  }

  lemma {:induction false} ViewerHoldThenRelease(s: Screen, s0: Screen, px: int, py: int, k: nat)
    requires Valid(s) && Valid(s0) && s == s0.(arrow := s.arrow)
    requires s.arrow.touching && !s.arrow.touchDown && ButtonWidget.IsPointInside(s.arrow, px, py)
    requires s.arrow.level + k >= s.arrow.top
    ensures var r := HandleEvents(s, seq(k, _ => ButtonWidget.FingerMotion(px, py)) + [ButtonWidget.FingerUp(px, py)]);
      r.1 == 1 && r.0 == ArrowClick(s0.(arrow := r.0.arrow))
    decreases k
  {
    var es := seq(k, _ => ButtonWidget.FingerMotion(px, py)) + [ButtonWidget.FingerUp(px, py)];
    var st := ButtonWidget.HandleEvent(s.arrow, es[0]);
    if k == 0 {
      assert es == [ButtonWidget.FingerUp(px, py)];
      assert ButtonWidget.InflateRelease in st.hooks;
      assert es[1..] == [];
    } else {
      assert ButtonWidget.InflateRelease !in st.hooks;
      assert es[1..] == seq(k - 1, _ => ButtonWidget.FingerMotion(px, py)) + [ButtonWidget.FingerUp(px, py)];
      ViewerHoldThenRelease(HandleEvent(s, es[0]), s0, px, py, k - 1);
    }
  }

  function RenderN(s: Screen, n: nat): (s': Screen)
    requires Valid(s)
    ensures Valid(s')
    decreases n
  {
    if n == 0 then s else RenderN(Render(s), n - 1)
  }

  /** A transition begun at step k completes after exactly
      `animationSteps + 1 - k` renders, in the resting layout of the current
      state; every earlier render leaves it still running. */
  lemma {:induction false} TransitionCompletes(s: Screen, n: nat)
    requires Valid(s) && 0 < s.animationStep
    ensures n < s.animationSteps + 1 - s.animationStep ==> RenderN(s, n).animationStep == s.animationStep + n
    ensures n == s.animationSteps + 1 - s.animationStep ==> AtRest(RenderN(s, n)) && RenderN(s, n).state == s.state
    decreases n
  {
    if n > 0 {
      var r := Render(s);
      assert r.state == s.state && r.animationSteps == s.animationSteps;
      if s.animationStep < s.animationSteps {
        assert r.animationStep == s.animationStep + 1;
        TransitionCompletes(r, n - 1);
        assert RenderN(s, n) == RenderN(r, n - 1);
      } else if n == 1 {
        assert AtRest(r);
        assert RenderN(s, n) == RenderN(r, 0);
      }
    }
  }

  /** Renders never move a resting screen. */
  lemma {:induction false} RestIsStable(s: Screen, n: nat)
    requires Valid(s) && AtRest(s)
    ensures AtRest(RenderN(s, n)) && RenderN(s, n).state == s.state
    decreases n
  {
    if n > 0 {
      RestIsStable(Render(s), n - 1);
    }
  }

  /** A click on a resting screen, then renders: after j < 50 renders both
      rectangles have moved 38·j pixels toward the new image, and the 50th
      render lands exactly on the new resting layout. */
  lemma {:induction false} ToggleSlidesThenSnaps(s: Screen, j: nat)
    requires Valid(s) && AtRest(s) && s.animationSteps == DefaultAnimationSteps
    ensures var c := ArrowClick(s);
      var dir := if c.state == TV then 1 else -1;
      j < 50 ==> RenderN(c, j).tvX == s.tvX + dir * 38 * j && RenderN(c, j).drcX == s.drcX + dir * 38 * j
    ensures AtRest(RenderN(ArrowClick(s), 50)) && RenderN(ArrowClick(s), 50).state != s.state
  {
    var c := ArrowClick(s);
    TransitionCompletes(c, 50);
    if j < 50 {
      SlideOffsets(c, s.tvX, s.drcX, j);
    }
  }

  lemma {:induction false} SlideOffsets(c: Screen, tv0: int, drc0: int, j: nat)
    requires Valid(c) && c.animationSteps == DefaultAnimationSteps && j < 51 - c.animationStep && 0 < c.animationStep
    requires var dir := if c.state == TV then 1 else -1;
      c.tvX == tv0 + dir * 38 * (c.animationStep - 1) && c.drcX == drc0 + dir * 38 * (c.animationStep - 1)
    ensures var dir := if c.state == TV then 1 else -1;
      RenderN(c, j).tvX == tv0 + dir * 38 * (c.animationStep - 1 + j)
      && RenderN(c, j).drcX == drc0 + dir * 38 * (c.animationStep - 1 + j)
    decreases j
  {
    if j > 0 {
      var r := Render(c);
      assert CDiv(ScreenWidth, 50) == 38;
      SlideOffsets(r, tv0, drc0, j - 1);
    }
  }
}
