/**
 * The moving balls: the corner-coverage test Ball::contains, the headings of
 * directionsLookup and generateDirection, the bounce nudge, the Ball object
 * with move/bounce/out-of-bounds flag, and the per-ball step of the driver.
 * Every random draw of the source is a parameter here.
 */
module Balls {

  import opened Vectors
  import opened Bounds

  function Abs(n: int): nat
  {
    if n < 0 then -n else n
  }

  /**
   * Ball::contains for a ball with this centre and radius. Off the two axis
   * lines through the centre it compares squared distances; on them it
   * compares the one differing coordinate. For a non-negative radius the two
   * branches agree with the plain disc test (strict: the rim is outside).
   */
  function Contains(centre: Vec3, radius: int, point: Vec3): (inside: bool)
    ensures radius >= 0 ==>
      (inside <==> (centre.x - point.x) * (centre.x - point.x) +
                   (centre.y - point.y) * (centre.y - point.y) < radius * radius)
  {
    if centre.x != point.x && centre.y != point.y then
      (centre.x - point.x) * (centre.x - point.x) +
      (centre.y - point.y) * (centre.y - point.y) < radius * radius
    else if centre.x == point.x && Abs(centre.y - point.y) < radius then
      true
    else if centre.y == point.y && Abs(centre.x - point.x) < radius then
      SquareBelow(centre.x - point.x, radius);
      true
    else
      SquareBelow(centre.x - point.x, radius);
      SquareBelow(centre.y - point.y, radius);
      false
  }

  /** For r >= 0, d * d < r * r exactly when |d| < r. */
  lemma SquareBelow(d: int, r: int)
    ensures r >= 0 ==> (d * d < r * r <==> Abs(d) < r)
  {
    if r >= 0 {
      if Abs(d) < r {
        assert Abs(d) * Abs(d) < r * r by {
          assert Abs(d) * Abs(d) <= Abs(d) * r;
        }
      } else {
        assert Abs(d) * Abs(d) >= r * r by {
          assert Abs(d) * Abs(d) >= Abs(d) * r;
        }
      }
      assert d * d == Abs(d) * Abs(d);
    }
  }

  /** A ball contains its own centre exactly when its radius is positive. */
  lemma ContainsCentre(centre: Vec3, radius: int)
    ensures Contains(centre, radius, centre) <==> radius > 0
  {
  }

  /** The Direction enumeration, in declaration order. */
  datatype Direction = NE | N | NW | W | SW | S | SE | E

  function Ordinal(d: Direction): nat
  {
    match d
    case NE => 0
    case N => 1
    case NW => 2
    case W => 3
    case SW => 4
    case S => 5
    case SE => 6
    case E => 7
  }

  /** directionsLookup, indexed by Direction. */
  function DirectionsLookup(d: Direction): (v: Vec3)
    ensures IsHeading(v)
  {
    match d
    case NE => Vec3(1, 1, 0)
    case N => Vec3(0, 1, 0)
    case NW => Vec3(-1, 1, 0)
    case W => Vec3(-1, 0, 0)
    case SW => Vec3(-1, -1, 0)
    case S => Vec3(0, -1, 0)
    case SE => Vec3(1, -1, 0)
    case E => Vec3(1, 0, 0)
  }

  /**
   * generateDirection with its draw `rand() % 8 + 1` as the parameter: draw k
   * in 1..8 selects the direction of ordinal k - 1; any other value keeps the
   * initial NW.
   */
  function GenerateDirection(draw: int): (d: Direction)
    ensures 1 <= draw <= 8 ==> Ordinal(d) == draw - 1
    ensures !(1 <= draw <= 8) ==> d == NW
  {
    if draw == 1 then NE
    else if draw == 2 then N
    else if draw == 3 then NW
    else if draw == 4 then W
    else if draw == 5 then SW
    else if draw == 6 then S
    else if draw == 7 then SE
    else if draw == 8 then E
    else NW
  }

  /** A heading in the plane: each of x and y is -1, 0 or 1, not both 0. */
  predicate IsHeading(v: Vec3)
  {
    v.z == 0 && -1 <= v.x <= 1 && -1 <= v.y <= 1 && (v.x != 0 || v.y != 0)
  }

  /**
   * directionsLookup lists exactly the eight headings, each once, and every
   * direction is reached by some draw in 1..8.
   */
  lemma DirectionsAreTheHeadings(v: Vec3)
    ensures IsHeading(v) <==> exists d :: DirectionsLookup(d) == v
    ensures forall d, e :: DirectionsLookup(d) == DirectionsLookup(e) ==> d == e
    ensures forall d :: GenerateDirection(Ordinal(d) + 1) == d
  {
    if IsHeading(v) {
      var d :=
        if v.y == 1 then (if v.x == 1 then NE else if v.x == 0 then N else NW)
        else if v.y == 0 then (if v.x == -1 then W else E)
        else (if v.x == -1 then SW else if v.x == 0 then S else SE);
      assert DirectionsLookup(d) == v;
    }
  }

  /**
   * The random part of Ball::bounce, with the draw `rand() % 3 + 1` as the
   * parameter: a step of +1, 0 or -1 (draw 1, 2, 3) along the axis on which
   * the wall normal is 0.
   */
  function Nudge(normal: Vec3, component: int): (v: Vec3)
    requires 1 <= component <= 3
    requires normal.x == 0 || normal.y == 0
    ensures v.z == 0
    ensures normal.x == 0 ==> v.y == 0 && v.x == 2 - component
    ensures normal.x != 0 ==> v.x == 0 && v.y == 2 - component
  {
    if component == 1 then
      (if normal.x == 0 then Vec3(1, 0, 0) else Vec3(0, 1, 0))
    else if component == 2 then
      Zero
    else
      (if normal.x == 0 then Vec3(-1, 0, 0) else Vec3(0, -1, 0))
  }

  /** Heading h moves a full step away from wall w, along its inward normal. */
  predicate HeadsAwayFrom(h: Vec3, w: Wall)
  {
    match w
    case MaxXWall => h.x == -1
    case MinXWall => h.x == 1
    case MaxYWall => h.y == -1
    case MinYWall => h.y == 1
  }

  /**
   * A bounce off wall w yields a heading that moves away from the wall: one
   * step along its inward normal, at most one step along the wall.
   */
  lemma BounceHeadsInward(w: Wall, component: int)
    requires 1 <= component <= 3
    ensures var h := Add(InwardNormal(w), Nudge(InwardNormal(w), component));
      IsHeading(h) && HeadsAwayFrom(h, w)
  {
  }

  /** The part of a ball that the driver changes each tick. */
  datatype BallMotion = BallMotion(position: Vec3, facing: Vec3, outOfBounds: bool)

  class Ball {
    const radius: int
    const speed: int
    var position: Vec3
    var facing: Vec3
    const color: Vec4
    var outOfBounds: bool

    constructor (radius: int, speed: int, position: Vec3, facing: Vec3, color: Vec4)
      ensures this.radius == radius && this.speed == speed && this.color == color
      ensures this.position == position && this.facing == facing && !outOfBounds
    {
      this.radius := radius;
      this.speed := speed;
      this.position := position;
      this.facing := facing;
      this.color := color;
      outOfBounds := false;
    }

    ghost function Motion(): BallMotion
      reads this
    {
      BallMotion(position, facing, outOfBounds)
    }

    /** Ball::move: one step of `speed` along the heading. */
    method Move()
      modifies this`position
      ensures position == Add(old(position), Scale(facing, speed))
    {
      position := Add(position, Scale(facing, speed));
    }

    /** Ball::bounce: the new heading is the wall normal plus the nudge. */
    method Bounce(normal: Vec3, component: int)
      requires 1 <= component <= 3
      requires normal.x == 0 || normal.y == 0
      modifies this`facing
      ensures facing == Add(normal, Nudge(normal, component))
    {
      var vec: Vec3;
      if component == 1 {
        if normal.x == 0 {
          vec := Vec3(1, 0, 0);
        } else {
          vec := Vec3(0, 1, 0);
        }
      } else if component == 2 {
        vec := Vec3(0, 0, 0);
      } else {
        if normal.x == 0 {
          vec := Vec3(-1, 0, 0);
        } else {
          vec := Vec3(0, -1, 0);
        }
      }
      facing := Add(normal, vec);
    }

    method SetOutOfBounds()
      modifies this`outOfBounds
      ensures outOfBounds
    {
      outOfBounds := true;
    }

    method ClearOutOfBounds()
      modifies this`outOfBounds
      ensures !outOfBounds
    {
      outOfBounds := false;
    }
  }

  /**
   * The bounds check of the driver's first loop, on a ball that has just
   * moved: if the flag is clear and the ball is out of bounds, set the flag and
   * bounce off the first violated wall; otherwise, if the flag is set, clear
   * it without looking at the bounds.
   */
  function Settle(outOfBounds: bool, moved: Vec3, facing: Vec3, radius: int, bounds: SceneBounds, draw: int): (r: BallMotion)
    requires 1 <= draw <= 3
    ensures r.position == moved
    ensures r.outOfBounds <==> !outOfBounds && bounds.OutOfBounds(moved, radius)
    ensures !r.outOfBounds ==> r.facing == facing
  {
    if outOfBounds then
      BallMotion(moved, facing, false)
    else if bounds.OutOfBounds(moved, radius) then
      var normal := bounds.WallNormal(moved, radius);
      BallMotion(moved, Add(normal, Nudge(normal, draw)), true)
    else
      BallMotion(moved, facing, false)
  }

  /** One ball's step of the driver's first loop: move, then the bounds check. */
  function Tick(m: BallMotion, radius: int, speed: int, bounds: SceneBounds, draw: int): (r: BallMotion)
    requires 1 <= draw <= 3
    ensures r.position == Add(m.position, Scale(m.facing, speed))
    ensures r.outOfBounds ==> !m.outOfBounds
  {
    Settle(m.outOfBounds, Add(m.position, Scale(m.facing, speed)), m.facing, radius, bounds, draw)
  }

  /**
   * The flag after a tick is set exactly when the tick bounced: the flag was
   * clear and the moved ball is out of bounds. A tick that does not bounce
   * keeps the heading; one that does turns it into a heading away from the
   * wall. Either way the ball has moved by one step.
   */
  lemma TickBouncesOnce(m: BallMotion, radius: int, speed: int, bounds: SceneBounds, draw: int)
    requires 1 <= draw <= 3
    ensures var t := Tick(m, radius, speed, bounds, draw);
      t.position == Add(m.position, Scale(m.facing, speed)) &&
      (t.outOfBounds <==> !m.outOfBounds && bounds.OutOfBounds(t.position, radius)) &&
      (!t.outOfBounds ==> t.facing == m.facing) &&
      (t.outOfBounds ==>
        IsHeading(t.facing) && HeadsAwayFrom(t.facing, bounds.FirstViolated(t.position, radius)))
  {
    var moved := Add(m.position, Scale(m.facing, speed));
    assert Tick(m, radius, speed, bounds, draw) == Settle(m.outOfBounds, moved, m.facing, radius, bounds, draw);
    if !m.outOfBounds && bounds.OutOfBounds(moved, radius) {
      WallNormalIsFirstViolated(bounds, moved, radius);
      BounceHeadsInward(bounds.FirstViolated(moved, radius), draw);
    }
  }

  /** A bounce is never followed by another on the next tick, nor does that tick turn. */
  lemma NoBounceTwiceInARow(m: BallMotion, radius: int, speed: int, bounds: SceneBounds, d1: int, d2: int)
    requires 1 <= d1 <= 3 && 1 <= d2 <= 3
    requires Tick(m, radius, speed, bounds, d1).outOfBounds
    ensures var t := Tick(m, radius, speed, bounds, d1);
      !Tick(t, radius, speed, bounds, d2).outOfBounds &&
      Tick(t, radius, speed, bounds, d2).facing == t.facing
  {
  }

  predicate ValidDraws(draws: seq<int>)
  {
    forall k :: 0 <= k < |draws| ==> 1 <= draws[k] <= 3
  }

  /** The motion after one tick per draw. */
  function Run(m: BallMotion, radius: int, speed: int, bounds: SceneBounds, draws: seq<int>): BallMotion
    requires ValidDraws(draws)
    decreases |draws|
  {
    if draws == [] then m
    else
      assert ValidDraws(draws[1..]);
      Run(Tick(m, radius, speed, bounds, draws[0]), radius, speed, bounds, draws[1..])
  }

  /** The number of ticks of such a run that bounce. */
  function BounceCount(m: BallMotion, radius: int, speed: int, bounds: SceneBounds, draws: seq<int>): nat
    requires ValidDraws(draws)
    decreases |draws|
  {
    if draws == [] then 0
    else
      assert ValidDraws(draws[1..]);
      var t := Tick(m, radius, speed, bounds, draws[0]);
      (if t.outOfBounds then 1 else 0) + BounceCount(t, radius, speed, bounds, draws[1..])
  }

  /**
   * However long a ball stays outside, it bounces at most on every other
   * tick: n ticks bounce at most ceil(n / 2) times, or floor(n / 2) if the
   * flag is set at the start.
   */
  lemma {:induction false} BounceCountBound(m: BallMotion, radius: int, speed: int, bounds: SceneBounds, draws: seq<int>)
    requires ValidDraws(draws)
    ensures 2 * BounceCount(m, radius, speed, bounds, draws) <= |draws| + (if m.outOfBounds then 0 else 1)
    decreases |draws|
  {
    if draws != [] {
      assert ValidDraws(draws[1..]);
      var t := Tick(m, radius, speed, bounds, draws[0]);
      if t.outOfBounds && |draws| > 1 {
        NoBounceTwiceInARow(m, radius, speed, bounds, draws[0], draws[1]);
        var u := Tick(t, radius, speed, bounds, draws[1]);
        assert draws[1..][1..] == draws[2..];
        assert BounceCount(t, radius, speed, bounds, draws[1..]) ==
               BounceCount(u, radius, speed, bounds, draws[2..]);
        BounceCountBound(u, radius, speed, bounds, draws[2..]);
      } else {
        BounceCountBound(t, radius, speed, bounds, draws[1..]);
      }
    }
  }

  /** A ball that starts with a heading keeps one on every tick of a run. */
  lemma {:induction false} RunKeepsHeading(m: BallMotion, radius: int, speed: int, bounds: SceneBounds, draws: seq<int>)
    requires ValidDraws(draws)
    requires IsHeading(m.facing)
    ensures IsHeading(Run(m, radius, speed, bounds, draws).facing)
    decreases |draws|
  {
    if draws != [] {
      assert ValidDraws(draws[1..]);
      TickBouncesOnce(m, radius, speed, bounds, draws[0]);
      RunKeepsHeading(Tick(m, radius, speed, bounds, draws[0]), radius, speed, bounds, draws[1..]);
    }
  }

  /**
   * The flag is cleared on the tick after a bounce without looking at the
   * bounds, so a ball that is still out of bounds two ticks after a bounce
   * bounces again, whatever happened in between.
   */
  lemma LingeringBallBouncesAgain(m: BallMotion, radius: int, speed: int, bounds: SceneBounds, d1: int, d2: int, d3: int)
    requires 1 <= d1 <= 3 && 1 <= d2 <= 3 && 1 <= d3 <= 3
    requires Tick(m, radius, speed, bounds, d1).outOfBounds
    requires bounds.OutOfBounds(Tick(Tick(Tick(m, radius, speed, bounds, d1), radius, speed, bounds, d2),
                                     radius, speed, bounds, d3).position, radius)
    ensures !Tick(Tick(m, radius, speed, bounds, d1), radius, speed, bounds, d2).outOfBounds
    ensures Tick(Tick(Tick(m, radius, speed, bounds, d1), radius, speed, bounds, d2), radius, speed, bounds, d3).outOfBounds
  {
    var t1 := Tick(m, radius, speed, bounds, d1);
    var t2 := Tick(t1, radius, speed, bounds, d2);
    TickBouncesOnce(t1, radius, speed, bounds, d2);
    TickBouncesOnce(t2, radius, speed, bounds, d3);
  }
}
