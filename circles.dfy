/** A circle of the sketch: it starts a swap on one board cell, glides
    towards the cell of its partner while the swap runs, and keeps a short
    trail of the positions it has drawn. */
module Circles {
  import opened Grid
  import Easing

  /** A position on the canvas, in board units. */
  datatype Point = Point(x: real, y: real)

  /** How many past positions a circle keeps for its trail. */
  const TrailLength: nat := 30

  /** The point at the centre of a board cell. */
  function PointOf(c: Cell): Point
  {
    Point(c.x as real, c.y as real)
  }

  /** Everything of a circle that its methods read or write: the cell it
      starts the swap from, where it is drawn now, the cell it glides to,
      and its trail, newest first. */
  datatype CircleState = CircleState(start: Cell, pos: Point, end: Cell, trail: seq<Point>)

  /** The trail of a circle is never empty and never longer than its limit. */
  predicate TrailBounded(s: CircleState)
  {
    1 <= |s.trail| <= TrailLength
  }

  /** The circle sits on the cell it starts from. */
  predicate AtRest(s: CircleState)
  {
    s.pos == PointOf(s.start)
  }

  /** A new circle on cell c: resting there, paired with itself, its trail
      holding just that position. */
  function Initial(c: Cell): (s: CircleState)
    ensures s.start == c && s.end == c
    ensures AtRest(s) && TrailBounded(s) && s.trail == [s.pos]
  {
    var p := PointOf(c);
    CircleState(c, p, c, [p])
  }

  /** The linear interpolation of `move` from a to b by the fraction p: a at
      0, b at 1, and between the two for fractions in [0, 1]. */
  function Lerp(a: int, b: int, p: real): (v: real)
    ensures p == 0.0 ==> v == a as real
    ensures p == 1.0 ==> v == b as real
    ensures a == b ==> v == a as real
    ensures 0.0 <= p <= 1.0 && a <= b ==> a as real <= v <= b as real
    ensures 0.0 <= p <= 1.0 && b <= a ==> b as real <= v <= a as real
  {
    var d := (b - a) as real;
    if 0.0 <= p <= 1.0 && a < b then
      Easing.ScaleDown(p, d);
      a as real + p * d
    else if 0.0 <= p <= 1.0 && b < a then
      Easing.ScaleDown(p, -d);
      assert p * d == -(p * -d);
      a as real + p * d
    else if a == b then
      assert d == 0.0;
      a as real + p * d
    else
      a as real + p * d
  }

  /** `move(percent)`: the current position goes to the front of the trail,
      which keeps its newest `TrailLength` entries, and the circle is drawn at
      the fraction `percent` of the way from its start to its end. */
  function Moved(s: CircleState, percent: real): (t: CircleState)
    ensures t.start == s.start && t.end == s.end
    ensures TrailBounded(t)
    ensures |t.trail| == Min(|s.trail| + 1, TrailLength)
    ensures t.trail[0] == s.pos && t.trail[1..] == s.trail[..|t.trail| - 1]
    ensures percent == 0.0 ==> AtRest(t)
    ensures percent == 1.0 ==> t.pos == PointOf(s.end)
    ensures 0.0 <= percent <= 1.0 ==> Between(t.pos, s.start, s.end)
  {
    var trail := [s.pos] + s.trail;
    var kept := if |trail| > TrailLength then trail[..TrailLength] else trail;
    CircleState(s.start, Point(Lerp(s.start.x, s.end.x, percent), Lerp(s.start.y, s.end.y, percent)), s.end, kept)
  }

  /** p lies in the box spanned by the cells a and b. */
  predicate Between(p: Point, a: Cell, b: Cell)
  {
    && Min(a.x, b.x) as real <= p.x <= Max(a.x, b.x) as real
    && Min(a.y, b.y) as real <= p.y <= Max(a.y, b.y) as real
  }

  /** `pair(other)`: the circle will glide to the start cell of its partner;
      nothing else of it changes. */
  function PairedWith(s: CircleState, other: Cell): (t: CircleState)
    ensures t.end == other
    ensures t.start == s.start && t.pos == s.pos && t.trail == s.trail
  {
    s.(end := other)
  }

  /** `resetPos()`: the swap is over, the circle now starts from its end
      cell and sits on it; the trail is kept. */
  function Reset(s: CircleState): (t: CircleState)
    ensures t.start == s.end && t.end == s.end && AtRest(t)
    ensures t.trail == s.trail
  {
    s.(start := s.end, pos := PointOf(s.end))
  }

  /** Resetting twice is resetting once. */
  lemma ResetIdempotent(s: CircleState)
    ensures Reset(Reset(s)) == Reset(s)
  {
  }

  /** After `resetPos` the circle "won't move any more": whatever the
      fraction, `move` leaves it on its cell until it is paired again. */
  lemma ResetThenMoveStays(s: CircleState, percent: real)
    ensures Moved(Reset(s), percent).pos == PointOf(s.end)
  {
  }

  /** A completed swap lands the circle on its partner's cell: moved all the
      way and reset, it rests there. */
  lemma PairMoveResetLands(s: CircleState, other: Cell, percent: real)
    requires percent == 1.0
    ensures var t := Reset(Moved(PairedWith(s, other), percent));
            t.start == other && AtRest(t)
  {
  }

  /** A sequence of `move` calls with the given fractions. */
  function MovedAll(s: CircleState, percents: seq<real>): CircleState
    decreases |percents|
  {
    if percents == [] then s else MovedAll(Moved(s, percents[0]), percents[1..])
  }

  /** The trail grows by one entry per `move` until it reaches its limit,
      and stays there: after n moves from a trail of length k it holds
      min(k + n, `TrailLength`) entries. */
  lemma {:induction false} TrailAfterMoves(s: CircleState, percents: seq<real>)
    requires |s.trail| <= TrailLength
    ensures |MovedAll(s, percents).trail| == Min(|s.trail| + |percents|, TrailLength)
    ensures MovedAll(s, percents).start == s.start && MovedAll(s, percents).end == s.end
    decreases |percents|
  {
    if percents != [] {
      TrailAfterMoves(Moved(s, percents[0]), percents[1..]);
    }
  }

  /** The JavaScript `Circle`. The radius, spacing and colours it keeps
      for drawing are not modelled. */
  class Circle {
    var startX: int
    var startY: int
    var posX: real
    var posY: real
    var endX: int
    var endY: int
    var oldPos: seq<Point>

    function State(): CircleState
      reads this
    {
      CircleState(Cell(startX, startY), Point(posX, posY), Cell(endX, endY), oldPos)
    }

    /** `new Circle(x, y, scl)`. */
    constructor(x: int, y: int)
      ensures State() == Initial(Cell(x, y)) && TrailBounded(State())
    {
      startX, startY := x, y;
      posX, posY := x as real, y as real;
      endX, endY := x, y;
      oldPos := [Point(x as real, y as real)];
    }

    /** The getter `x`: the column of the start cell. */
    function X(): (x: int)
      reads this
      ensures x == State().start.x
    {
      startX
    }

    /** The getter `y`: the row of the start cell. */
    function Y(): (y: int)
      reads this
      ensures y == State().start.y
    {
      startY
    }

    method Move(percent: real)
      modifies this
      ensures State() == Moved(old(State()), percent) && TrailBounded(State())
    {
      oldPos := [Point(posX, posY)] + oldPos;
      if |oldPos| > TrailLength {
        oldPos := oldPos[..TrailLength];
      }
      posX := startX as real + percent * (endX - startX) as real;
      posY := startY as real + percent * (endY - startY) as real;
    }

    /** `pair(other)`; other may be this circle itself. */
    method Pair(other: Circle)
      modifies this
      ensures State() == PairedWith(old(State()), Cell(old(other.X()), old(other.Y())))
      ensures TrailBounded(State()) == old(TrailBounded(State()))
    {
      endX := other.X();
      endY := other.Y();
    }

    method ResetPos()
      modifies this
      ensures State() == Reset(old(State()))
      ensures TrailBounded(State()) == old(TrailBounded(State()))
    {
      startX, startY := endX, endY;
      posX, posY := endX as real, endY as real;
    }
  }
}
