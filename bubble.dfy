/** One rising number bubble of the game (js/game.js, class Bubble): its state as a value,
    the pure rules for spawning, stepping and hit-testing it, and the object the game mutates. */
module Bubbles {

  /** The fields of a bubble at one moment. Opacity and pop scale are counted in tenths
      (10 means 1.0), so that the source's steps of 0.1 are exact. */
  datatype BubbleState = BubbleState(
    x: real, y: real, radius: real, value: int, speed: real,
    selected: bool, popping: bool, popScale: int, opacity: int)

  /** The four results of Math.random() a new bubble consumes (the colour draw only affects drawing). */
  datatype SpawnDraws = SpawnDraws(radius: real, x: real, value: real, speed: real)

  /** A result of Math.random(): a real in [0, 1). */
  predicate Unit(r: real) { 0.0 <= r < 1.0 }

  predicate UnitDraws(d: SpawnDraws) {
    Unit(d.radius) && Unit(d.x) && Unit(d.value) && Unit(d.speed)
  }

  /** What holds of every bubble from its creation on: a positive radius, opacity never above
      full, scale growing exactly as opacity falls, and only a popping bubble ever fading. */
  predicate WellFormed(s: BubbleState) {
    0.0 < s.radius && s.opacity <= 10 && s.popScale + s.opacity == 20 &&
    (!s.popping ==> s.opacity == 10)
  }

  /** The number printed on a new bubble: floor(r * (target - 1)) + 1. */
  function SpawnValue(target: int, r: real): (v: int)
    requires Unit(r)
    ensures target >= 2 ==> 1 <= v <= target - 1
  {
    var scaled := r * (target - 1) as real;
    assert target >= 2 ==> 0.0 <= scaled < (target - 1) as real by {
      if target >= 2 {
        assert r * (target - 1) as real < 1.0 * (target - 1) as real;
      }
    }
    scaled.Floor + 1
  }

  /** Every number a bubble may show for a given target is drawn by some Math.random() result. */
  lemma EveryValueDrawable(target: int, v: int)
    requires 1 <= v <= target - 1
    ensures exists r :: Unit(r) && SpawnValue(target, r) == v
  {
    var n := (target - 1) as real;
    var r := (v - 1) as real / n;
    assert r * n == (v - 1) as real;
    assert Unit(r);
    assert SpawnValue(target, r) == v;
  }

  /** The state of a bubble the constructor creates while the target is `target`,
      the speed factor is `gameSpeed` and the canvas is `width` by `height`. */
  function Spawned(target: int, gameSpeed: real, width: real, height: real, d: SpawnDraws): (s: BubbleState)
    requires UnitDraws(d)
    ensures WellFormed(s)
    ensures 35.0 <= s.radius < 55.0 && s.y == height + s.radius
    ensures target >= 2 ==> 1 <= s.value <= target - 1
    ensures gameSpeed > 0.0 ==> 0.5 * gameSpeed <= s.speed < gameSpeed
    ensures !s.selected && !s.popping && s.opacity == 10 && s.popScale == 10
  {
    var radius := d.radius * 20.0 + 35.0;
    var speed := (d.speed * 0.5 + 0.5) * gameSpeed;
    assert gameSpeed > 0.0 ==> speed < gameSpeed by {
      if gameSpeed > 0.0 {
        assert (d.speed * 0.5 + 0.5) * gameSpeed < 1.0 * gameSpeed;
      }
    }
    BubbleState(d.x * (width - radius * 2.0) + radius, height + radius, radius,
                SpawnValue(target, d.value), speed, false, false, 10, 10)
  }

  /** One frame of Bubble.update: a popping bubble stays where it is, grows by a tenth and
      fades by a tenth; any other bubble rises by its speed and wobbles sideways by half the
      sine (supplied by the environment as `sin`) of a twentieth of its new height. */
  function Stepped(s: BubbleState, sin: real -> real): (t: BubbleState)
    ensures t.radius == s.radius && t.value == s.value && t.speed == s.speed
    ensures t.selected == s.selected && t.popping == s.popping
    ensures WellFormed(s) ==> WellFormed(t)
  {
    if s.popping then
      s.(popScale := s.popScale + 1, opacity := s.opacity - 1)
    else
      var y := s.y - s.speed;
      s.(y := y, x := s.x + sin(y * 0.05) * 0.5)
  }

  /** `n` consecutive frames. */
  function Steps(s: BubbleState, sin: real -> real, n: nat): BubbleState
    decreases n
  {
    if n == 0 then s else Steps(Stepped(s, sin), sin, n - 1)
  }


  /** A popping bubble never moves again: after `n` frames it is where it was, with the same
      number and flags, `n` tenths more transparent and `n` tenths larger. In particular a
      bubble that starts popping at full opacity reaches opacity 0 after exactly ten frames. */
  lemma {:induction false} PoppingFades(s: BubbleState, sin: real -> real, n: nat)
    requires s.popping
    ensures Steps(s, sin, n) == s.(popScale := s.popScale + n, opacity := s.opacity - n)
    decreases n
  {
    if n > 0 {
      PoppingFades(Stepped(s, sin), sin, n - 1);
    }
  }

  /** A bubble that is not popping keeps its number, flags, opacity and scale, and after `n`
      frames has risen by exactly `n` times its speed. */
  lemma {:induction false} RisingBubble(s: BubbleState, sin: real -> real, n: nat)
    requires !s.popping
    ensures var t := Steps(s, sin, n);
      t.y == s.y - n as real * s.speed &&
      t == s.(x := t.x, y := t.y)
    decreases n
  {
    if n > 0 {
      RisingBubble(Stepped(s, sin), sin, n - 1);
    }
  }

  function Sq(d: real): real { d * d }

  /** Bubble.isClicked, comparing squared distances instead of taking a square root. */
  predicate Hits(s: BubbleState, mx: real, my: real): (hit: bool)
    ensures hit ==> Sq(mx - s.x) < Sq(s.radius) && Sq(my - s.y) < Sq(s.radius)
  {
    Sq(mx - s.x) + Sq(my - s.y) < Sq(s.radius)
  }

  lemma PositiveProduct(x: real, y: real)
    requires 0.0 < x && 0.0 < y
    ensures 0.0 < x * y
  {}

  /** Squaring is strictly increasing on the non-negative reals. */
  lemma SquareGrows(a: real, b: real)
    requires 0.0 <= a < b
    ensures Sq(a) < Sq(b)
  {
    PositiveProduct(b - a, b + a);
    assert (b - a) * (b + a) == b * b - a * a;
  }

  /** The squared comparison agrees with the source's: for the Euclidean distance `d` from the
      tap to the centre (the non-negative root of the squared distance), the bubble is hit
      exactly when `d` is strictly below the radius. */
  lemma HitsIffCloserThanRadius(s: BubbleState, mx: real, my: real, d: real)
    requires 0.0 <= s.radius && 0.0 <= d
    requires Sq(d) == Sq(mx - s.x) + Sq(my - s.y)
    ensures Hits(s, mx, my) <==> d < s.radius
  {
    if d < s.radius {
      SquareGrows(d, s.radius);
    } else if s.radius < d {
      SquareGrows(s.radius, d);
    }
  }

  /** A bubble object; the game changes its position, flags, scale and opacity in place. */
  class Bubble {
    const radius: real
    var x: real
    var y: real
    const value: int
    const speed: real
    var selected: bool
    var popping: bool
    var popScale: int
    var opacity: int

    function State(): BubbleState
      reads this
    {
      BubbleState(x, y, radius, value, speed, selected, popping, popScale, opacity)
    }

    ghost predicate Valid()
      reads this
    {
      WellFormed(State())
    }

    /** new Bubble(), reading the current target and speed factor and the canvas size. */
    constructor (target: int, gameSpeed: real, width: real, height: real, d: SpawnDraws)
      requires UnitDraws(d)
      ensures Valid()
      ensures State() == Spawned(target, gameSpeed, width, height, d)
    {
      var s := Spawned(target, gameSpeed, width, height, d);
      radius, value, speed := s.radius, s.value, s.speed;
      x, y := s.x, s.y;
      selected, popping := false, false;
      popScale, opacity := 10, 10;
    }

    /** Bubble.update: one frame of movement or of the popping animation. */
    method Update(sin: real -> real)
      requires Valid()
      modifies this
      ensures Valid()
      ensures State() == Stepped(old(State()), sin)
    {
      if popping {
        popScale := popScale + 1;
        opacity := opacity - 1;
        return;
      }
      y := y - speed;
      x := x + sin(y * 0.05) * 0.5;
    }

    /** Bubble.isClicked. */
    predicate IsClicked(mx: real, my: real): (clicked: bool)
      reads this
      ensures clicked ==> Sq(mx - x) < Sq(radius) && Sq(my - y) < Sq(radius)
    {
      Hits(State(), mx, my)
    }
  }
}
