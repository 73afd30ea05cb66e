/**
 The `Button` widget of src/Button.cpp: a rectangle with a press/inflate/
 release cycle advanced once per call of `updateButton`. The float `scale`
 is an integer inflation level: level 0 stands for 1.0 and level `top` for
 `scalePressed`, each step moving one level. The four hook points
 (`onStart`, `onInflate`, `onInflateRelease`, `onDeflate`) are reported as
 the hooks a step fires; `onInflateRelease` is where the click callback runs.
 */
module ButtonWidget {
  import opened CArith
  import Grid

  datatype Hook = Start | Inflate | InflateRelease | Deflate

  /** SDL game-controller button codes arrive as unsigned bytes. */
  type Byte = x: int | 0 <= x < 256

  /** `SDL_CONTROLLER_BUTTON_INVALID`, the binding of a fresh button. */
  const InvalidControllerButton: int := -1

  datatype Button = Button(
    x: int, y: int, width: int, height: int,
    originalX: int, originalY: int, originalWidth: int, originalHeight: int,
    level: int,
    top: int,
    touching: bool, touchDown: bool, inflated: bool, pressed: bool,
    controllerButton: int)

  /** What every reachable button satisfies. */
  predicate Valid(b: Button) {
    && b.top >= 1
    && 0 <= b.level <= b.top
    && (b.touchDown ==> b.touching && !b.inflated)
    && (!b.touching ==> b.level == 0 && !b.inflated)
    && b.pressed == (b.touching && !b.touchDown)
  }

  /** The constructor: current and original bounds equal, scale 1.0, idle. */
  function NewButton(x: int, y: int, width: int, height: int, top: int): (b: Button)
    requires top >= 1
    ensures Valid(b) && !IsAnimationInProgress(b) && !b.pressed
    ensures b.x == b.originalX == x && b.y == b.originalY == y
    ensures b.width == b.originalWidth == width && b.height == b.originalHeight == height
    ensures b.controllerButton == InvalidControllerButton
  {
    Button(x, y, width, height, x, y, width, height, 0, top, false, false, false, false, InvalidControllerButton)
  }

  /** `isPointInside`: a HALF-OPEN rectangle, `[x, x+w) x [y, y+h)`. */
  predicate IsPointInside(b: Button, px: int, py: int) {
    px >= b.x && px < b.x + b.width && py >= b.y && py < b.y + b.height
  }

  /** The button's test and main.cpp's closed `isPointInsideRect` differ
      exactly on the right and bottom edges. */
  lemma InsideHalfOpenVsClosed(b: Button, px: int, py: int)
    ensures IsPointInside(b, px, py) <==>
      Grid.InsideRectClosed(px, py, b.x, b.y, b.width, b.height) && px != b.x + b.width && py != b.y + b.height
    ensures b.width >= 0 && b.height >= 0 ==>
      Grid.InsideRectClosed(b.x + b.width, b.y + b.height, b.x, b.y, b.width, b.height)
      && !IsPointInside(b, b.x + b.width, b.y + b.height)
  {
  }

  function IsAnimationInProgress(b: Button): bool {
    b.touching
  }

  /** One call's result: the new button and the hooks it fired, in order. */
  datatype Step = Step(button: Button, hooks: seq<Hook>)

  function Settle(b: Button, hooks: seq<Hook>): Step {
    Step(b.(pressed := b.touching && !b.touchDown), hooks)
  }

  /** `updateButton(touchX, touchY, isTouched)`. */
  function UpdateButton(b: Button, tx: int, ty: int, isTouched: bool): (s: Step)
    requires Valid(b)
    ensures Valid(s.button)
    ensures s.button.pressed == (s.button.touching && !s.button.touchDown)
    // a dragged-out cycle deflates one level per update, then ends at level 0
    ensures b.touchDown && b.level > 1 ==>
      s.button.touchDown && s.button.touching && s.button.level == b.level - 1 && s.hooks == []
    ensures b.touchDown && b.level <= 1 ==>
      !IsAnimationInProgress(s.button) && s.button.level == 0 && s.hooks == [Deflate]
    // a cycle starts only from rest, on a touch inside
    ensures Start in s.hooks <==> !b.touching && isTouched && IsPointInside(b, tx, ty)
    ensures Start in s.hooks ==>
      (s.button.touching && !s.button.touchDown && s.button.level == 1 && (s.button.inflated <==> b.top == 1))
    // the click fires only on a release at full inflation, once: it arms touchDown
    ensures InflateRelease in s.hooks ==>
      !isTouched && b.touching && !b.touchDown && s.button.level == b.top && s.button.touchDown
    ensures InflateRelease in s.hooks <==> b.touching && !b.touchDown && b.level + 1 >= b.top && !isTouched
    // dragging out at full inflation deflates without a click
    ensures b.touching && !b.touchDown && b.level + 1 >= b.top && isTouched && !IsPointInside(b, tx, ty) ==>
      InflateRelease !in s.hooks && s.button.touchDown && s.button.level == b.top
    // geometry, binding and the pressed scale never change here
    ensures s.button.(level := b.level, touching := b.touching, touchDown := b.touchDown,
                      inflated := b.inflated, pressed := b.pressed) == b
  {
    var starts := IsPointInside(b, tx, ty) && !b.touching && isTouched;
    var b1 := if starts then b.(level := 0, touching := true, inflated := false) else b;
    var h1 := if starts then [Start] else [];
    if !b1.touching then
      Settle(b1, h1)
    else
      var lvl := if !b1.touchDown then b1.level + 1 else b1.level - 1;
      if lvl >= b1.top then
        var h2 := if !b1.inflated then h1 + [Inflate] else h1;
        if !IsPointInside(b1, tx, ty) && isTouched then
          Settle(b1.(level := b1.top, touchDown := true, inflated := false), h2)
        else if !isTouched then
          Settle(b1.(level := b1.top, touchDown := true, inflated := false), h2 + [InflateRelease])
        else
          Settle(b1.(level := b1.top, inflated := true), h2)
      else if lvl <= 0 then
        Settle(b1.(level := 0, touching := false, touchDown := false), h1 + [Deflate])
      else
        Settle(b1.(level := lvl), h1)
  }

  /** The input events a button reads. Finger coordinates are pixels. */
  datatype Event =
    | FingerDown(fx: int, fy: int)
    | FingerUp(fx: int, fy: int)
    | FingerMotion(fx: int, fy: int)
    | ControllerDown(code: Byte)
    | ControllerUp(code: Byte)
    | OtherEvent

  /** `handleEvent`: fingers touch at their point (up releases); the bound
      controller button touches and releases at the button's centre; every
      other event is ignored. */
  function HandleEvent(b: Button, e: Event): (s: Step)
    requires Valid(b)
    ensures Valid(s.button)
    ensures e.OtherEvent? ==> s == Step(b, [])
    ensures (e.ControllerDown? || e.ControllerUp?) && e.code != b.controllerButton ==> s == Step(b, [])
    ensures (e.ControllerDown? || e.ControllerUp?) && e.code == b.controllerButton ==>
      s == UpdateButton(b, b.x + CDiv(b.width, 2), b.y + CDiv(b.height, 2), e.ControllerDown?)
    ensures (e.FingerDown? || e.FingerMotion?) ==> s == UpdateButton(b, e.fx, e.fy, true)
    ensures e.FingerUp? ==> s == UpdateButton(b, e.fx, e.fy, false)
  {
    match e
    case FingerDown(fx, fy) => UpdateButton(b, fx, fy, true)
    case FingerMotion(fx, fy) => UpdateButton(b, fx, fy, true)
    case FingerUp(fx, fy) => UpdateButton(b, fx, fy, false)
    case ControllerDown(code) =>
      if code == b.controllerButton then UpdateButton(b, b.x + CDiv(b.width, 2), b.y + CDiv(b.height, 2), true)
      else Step(b, [])
    case ControllerUp(code) =>
      if code == b.controllerButton then UpdateButton(b, b.x + CDiv(b.width, 2), b.y + CDiv(b.height, 2), false)
      else Step(b, [])
    case OtherEvent => Step(b, [])
  }

  /** A button left with the invalid binding ignores every controller event. */
  lemma UnboundIgnoresController(b: Button, code: Byte)
    requires Valid(b) && b.controllerButton == InvalidControllerButton
    ensures HandleEvent(b, ControllerDown(code)) == Step(b, [])
    ensures HandleEvent(b, ControllerUp(code)) == Step(b, [])
  {
  }

  /** `setRect`: current and original bounds both become the rectangle. */
  function SetRect(b: Button, rx: int, ry: int, rw: int, rh: int): (b': Button)
    requires Valid(b)
    ensures Valid(b')
    ensures b'.x == b'.originalX == rx && b'.y == b'.originalY == ry
    ensures b'.width == b'.originalWidth == rw && b'.height == b'.originalHeight == rh
    ensures b'.(x := b.x, y := b.y, width := b.width, height := b.height, originalX := b.originalX,
                originalY := b.originalY, originalWidth := b.originalWidth, originalHeight := b.originalHeight) == b
  {
    b.(x := rx, y := ry, width := rw, height := rh,
       originalX := rx, originalY := ry, originalWidth := rw, originalHeight := rh)
  }

  /** `setControllerButton`: rebinds the controller button and nothing else. */
  function SetControllerButton(b: Button, code: int): (b': Button)
    requires Valid(b)
    ensures Valid(b') && b'.controllerButton == code
    ensures b'.(controllerButton := b.controllerButton) == b
  {
    b.(controllerButton := code)
  }

  /** Once bound, the controller button presses an idle button at its centre,
      and a full press with it (held to full inflation, then released) clicks
      exactly once. */
  lemma BoundControllerPressesAtCentre(b: Button, code: Byte)
    requires Valid(b) && !b.touching && b.width >= 1 && b.height >= 1
    ensures var bound := SetControllerButton(b, code);
      var s := HandleEvent(bound, ControllerDown(code));
      && IsPointInside(bound, b.x + CDiv(b.width, 2), b.y + CDiv(b.height, 2))
      && Start in s.hooks && s.button.touching
    ensures var bound := SetControllerButton(b, code);
      var c := Input(b.x + CDiv(b.width, 2), b.y + CDiv(b.height, 2), true);
      var ins := seq(b.top, _ => c) + [c.(touched := false)];
      Run(bound, ins).1 == 1 && Run(bound, ins).2 == 1
  {
    var bound := SetControllerButton(b, code);
    CDivNonNegative(b.width, 2);
    CDivNonNegative(b.height, 2);
    PressHoldReleaseClicksOnce(bound, b.x + CDiv(b.width, 2), b.y + CDiv(b.height, 2));
  }

  /** One `updateButton` argument triple. */
  datatype Input = Input(tx: int, ty: int, touched: bool)

  /** The button after a run of updates, with the clicks and starts it fired. */
  function Run(b: Button, ins: seq<Input>): (r: (Button, nat, nat))
    requires Valid(b)
    ensures Valid(r.0)
    decreases |ins|
  {
    if |ins| == 0 then (b, 0, 0)
    else
      var s := UpdateButton(b, ins[0].tx, ins[0].ty, ins[0].touched);
      var rest := Run(s.button, ins[1..]);
      (rest.0,
       rest.1 + (if InflateRelease in s.hooks then 1 else 0),
       rest.2 + (if Start in s.hooks then 1 else 0))
  }

  /** 1 while a press cycle is under way and has not yet clicked or been dragged out. */
  function Armed(b: Button): nat {
    if b.touching && !b.touchDown then 1 else 0
  }

  /** At most one click per press cycle: over any run, the clicks never exceed
      the cycles started, plus one for a cycle already under way. */
  lemma {:induction false} ClicksAtMostOnePerCycle(b: Button, ins: seq<Input>)
    requires Valid(b)
    ensures Run(b, ins).1 + Armed(Run(b, ins).0) <= Run(b, ins).2 + Armed(b)
    decreases |ins|
  {
    if |ins| > 0 {
      var s := UpdateButton(b, ins[0].tx, ins[0].ty, ins[0].touched);
      ClicksAtMostOnePerCycle(s.button, ins[1..]);
    }
  }

  /** Holding a touch inside inflates one level per update, without clicking. */
  lemma {:induction false} HoldInside(b: Button, px: int, py: int, k: nat)
    requires Valid(b) && b.touching && !b.touchDown && IsPointInside(b, px, py)
    ensures var r := Run(b, seq(k, _ => Input(px, py, true)));
      && r.1 == 0 && r.2 == 0
      && r.0.touching && !r.0.touchDown && IsPointInside(r.0, px, py)
      && r.0.level == if b.level + k <= b.top then b.level + k else b.top
    decreases k
  {
    if k > 0 {
      var ins := seq(k, _ => Input(px, py, true));
      var s := UpdateButton(b, px, py, true);
      assert ins[1..] == seq(k - 1, _ => Input(px, py, true));
      HoldInside(s.button, px, py, k - 1);
    }
  }

  /** A press inside, held until fully inflated, then released: exactly one click. */
  lemma {:induction false} PressHoldReleaseClicksOnce(b: Button, px: int, py: int)
    requires Valid(b) && !b.touching && IsPointInside(b, px, py)
    ensures var ins := seq(b.top, _ => Input(px, py, true)) + [Input(px, py, false)];
      Run(b, ins).1 == 1 && Run(b, ins).2 == 1
  {
    var hold := seq(b.top, _ => Input(px, py, true));
    var ins := hold + [Input(px, py, false)];
    var s := UpdateButton(b, px, py, true);
    assert Start in s.hooks && InflateRelease !in s.hooks;
    assert ins[1..] == seq(b.top - 1, _ => Input(px, py, true)) + [Input(px, py, false)];
    HoldThenRelease(s.button, px, py, b.top - 1);
  }

  lemma {:induction false} HoldThenRelease(b: Button, px: int, py: int, k: nat)
    requires Valid(b) && b.touching && !b.touchDown && IsPointInside(b, px, py) && b.level + k >= b.top
    ensures var ins := seq(k, _ => Input(px, py, true)) + [Input(px, py, false)];
      Run(b, ins).1 == 1 && Run(b, ins).2 == 0
    decreases k
  {
    var ins := seq(k, _ => Input(px, py, true)) + [Input(px, py, false)];
    if k == 0 {
      assert ins == [Input(px, py, false)];
      var s := UpdateButton(b, px, py, false);
      assert InflateRelease in s.hooks && Start !in s.hooks;
      assert ins[1..] == [];
    } else {
      var s := UpdateButton(b, px, py, true);
      assert InflateRelease !in s.hooks && Start !in s.hooks;
      assert ins[1..] == seq(k - 1, _ => Input(px, py, true)) + [Input(px, py, false)];
      HoldThenRelease(s.button, px, py, k - 1);
    }
  }

  /** A press inside, held to full inflation, then dragged outside and
      released there: no click at all. */
  lemma PressDragOutReleaseNoClick(b: Button, px: int, py: int, qx: int, qy: int)
    requires Valid(b) && !b.touching && IsPointInside(b, px, py) && !IsPointInside(b, qx, qy)
    ensures var ins := seq(b.top, _ => Input(px, py, true)) + [Input(qx, qy, true), Input(qx, qy, false)];
      Run(b, ins).1 == 0
  {
    var ins := seq(b.top, _ => Input(px, py, true)) + [Input(qx, qy, true), Input(qx, qy, false)];
    var s := UpdateButton(b, px, py, true);
    assert ins[1..] == seq(b.top - 1, _ => Input(px, py, true)) + [Input(qx, qy, true), Input(qx, qy, false)];
    HoldThenDragOut(s.button, px, py, qx, qy, b.top - 1);
  }

  lemma {:induction false} HoldThenDragOut(b: Button, px: int, py: int, qx: int, qy: int, k: nat)
    requires Valid(b) && b.touching && !b.touchDown && IsPointInside(b, px, py) && !IsPointInside(b, qx, qy)
    requires b.level + k >= b.top
    ensures var ins := seq(k, _ => Input(px, py, true)) + [Input(qx, qy, true), Input(qx, qy, false)];
      Run(b, ins).1 == 0
    decreases k
  {
    var ins := seq(k, _ => Input(px, py, true)) + [Input(qx, qy, true), Input(qx, qy, false)];
    if k == 0 {
      var s := UpdateButton(b, qx, qy, true);
      assert InflateRelease !in s.hooks && s.button.touchDown;
      var s2 := UpdateButton(s.button, qx, qy, false);
      assert InflateRelease !in s2.hooks;
      assert ins[1..] == [Input(qx, qy, false)];
      assert ins[1..][1..] == [];
      assert Run(s.button, ins[1..]).1 == 0;
    } else {
      var s := UpdateButton(b, px, py, true);
      assert InflateRelease !in s.hooks;
      assert ins[1..] == seq(k - 1, _ => Input(px, py, true)) + [Input(qx, qy, true), Input(qx, qy, false)];
      HoldThenDragOut(s.button, px, py, qx, qy, k - 1);
    }
  }
}
