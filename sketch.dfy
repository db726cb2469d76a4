/** The sketch itself: `setup` lays out one circle per board cell, and
    every `draw` either lets the circles glide or, on the first frame of a
    period, resets them, draws a fresh assignment grid with `_make_pairs`
    and hands each circle the destination its cell was given. */
module Animation {
  import opened Grid
  import opened Randomness
  import opened Pairing
  import opened Circles
  import Easing

  function StartsOf(ss: seq<CircleState>): (cs: seq<Cell>)
    ensures |cs| == |ss| && forall i {:trigger cs[i]} :: 0 <= i < |ss| ==> cs[i] == ss[i].start
  {
    seq(|ss|, i requires 0 <= i < |ss| => ss[i].start)
  }

  function EndsOf(ss: seq<CircleState>): (cs: seq<Cell>)
    ensures |cs| == |ss| && forall i {:trigger cs[i]} :: 0 <= i < |ss| ==> cs[i] == ss[i].end
  {
    seq(|ss|, i requires 0 <= i < |ss| => ss[i].end)
  }

  /** `resetPos` on every circle. */
  function ResetEach(ss: seq<CircleState>): (ts: seq<CircleState>)
    ensures |ts| == |ss| && forall i :: 0 <= i < |ss| ==> ts[i] == Reset(ss[i])
    ensures StartsOf(ts) == EndsOf(ss) && EndsOf(ts) == EndsOf(ss)
  {
    var ts := seq(|ss|, i requires 0 <= i < |ss| => Reset(ss[i]));
    assert StartsOf(ts) == EndsOf(ss) && EndsOf(ts) == EndsOf(ss);
    ts
  }

  /** `move(percent)` on every circle. */
  function MoveEach(ss: seq<CircleState>, percent: real): (ts: seq<CircleState>)
    ensures |ts| == |ss| && forall i :: 0 <= i < |ss| ==> ts[i] == Moved(ss[i], percent)
    ensures StartsOf(ts) == StartsOf(ss) && EndsOf(ts) == EndsOf(ss)
  {
    var ts := seq(|ss|, i requires 0 <= i < |ss| => Moved(ss[i], percent));
    assert StartsOf(ts) == StartsOf(ss) && EndsOf(ts) == EndsOf(ss);
    ts
  }

  /** Every circle paired with the cell its start cell's entry names, or
      left on its own cell when that cell holds no entry. */
  function PairEach(ss: seq<CircleState>, g: Assignment): (ts: seq<CircleState>)
    ensures |ts| == |ss| && forall i :: 0 <= i < |ss| ==> ts[i] == PairedWith(ss[i], Follow(g, ss[i].start))
    ensures StartsOf(ts) == StartsOf(ss) && EndsOf(ts) == FollowAll(g, StartsOf(ss))
  {
    var ts := seq(|ss|, i requires 0 <= i < |ss| => PairedWith(ss[i], Follow(g, ss[i].start)));
    assert StartsOf(ts) == StartsOf(ss) && EndsOf(ts) == FollowAll(g, StartsOf(ss));
    ts
  }

  /** What the grid scan of `draw` has done to a circle once it has passed
      every cell before `at` in scan order: a circle whose start cell holds
      an entry there has been paired with it. */
  function Scanned(s: CircleState, g: Assignment, at: Cell): CircleState
  {
    if s.start in g && ScanBefore(s.start, at) then PairedWith(s, g[s.start]) else s
  }

  /** `Scanned` for every circle. */
  function ScannedAll(ss: seq<CircleState>, g: Assignment, at: Cell): (ts: seq<CircleState>)
    ensures |ts| == |ss| && forall i :: 0 <= i < |ss| ==> ts[i] == Scanned(ss[i], g, at)
  {
    seq(|ss|, i requires 0 <= i < |ss| => Scanned(ss[i], g, at))
  }

  /** The circle `where` names for cell c. */
  ghost function Owner(where: map<Cell, nat>, c: Cell): nat
  {
    if c in where then where[c] else 0
  }

  /** `where` names, for each board cell, the one circle starting there. */
  ghost predicate StartMap(ss: seq<CircleState>, where: map<Cell, nat>, cols: int)
  {
    && (forall i :: 0 <= i < |ss| ==> InGrid(ss[i].start, cols) && ss[i].start in where && where[ss[i].start] == i)
    && (forall c {:trigger Owner(where, c)} :: InGrid(c, cols) ==> c in where && Owner(where, c) < |ss| && ss[Owner(where, c)].start == c)
  }

  /** Start cells that cover the board once have such an inverse. */
  lemma BuildStartMap(ss: seq<CircleState>, cols: int) returns (where: map<Cell, nat>)
    requires Bijective(StartsOf(ss), cols)
    ensures StartMap(ss, where, cols)
  {
    var starts := StartsOf(ss);
    where := map i | 0 <= i < |ss| :: starts[i] := i;
    forall i | 0 <= i < |ss|
      ensures InGrid(ss[i].start, cols) && ss[i].start in where && where[ss[i].start] == i
    {
      assert starts[i] in where;
      var j := where[starts[i]];
      assert 0 <= j < |ss| && starts[j] == starts[i];
    }
    forall c | InGrid(c, cols)
      ensures c in where && Owner(where, c) < |ss| && ss[Owner(where, c)].start == c
    {
      assert c in starts;
      var i :| 0 <= i < |ss| && starts[i] == c;
      assert where[c] == i;
    }
  }

  /** Before the scan nothing has been paired. */
  lemma ScanStart(ss: seq<CircleState>, g: Assignment, where: map<Cell, nat>, cols: int)
    requires StartMap(ss, where, cols)
    ensures forall i :: 0 <= i < |ss| ==> Scanned(ss[i], g, Cell(0, 0)) == ss[i]
  {
  }

  /** Every board cell is the start of the circle `where` names for it. */
  lemma StartOf(ss: seq<CircleState>, where: map<Cell, nat>, cols: int, c: Cell)
    requires StartMap(ss, where, cols)
    ensures InGrid(c, cols) ==> c in where && Owner(where, c) < |ss| && ss[Owner(where, c)].start == c
  {
    var k := Owner(where, c);
  }

  /** A cell no circle starts on is off the board. */
  lemma NotAStart(ss: seq<CircleState>, where: map<Cell, nat>, cols: int, c: Cell)
    requires StartMap(ss, where, cols)
    requires forall k :: 0 <= k < |ss| ==> ss[k].start != c
    ensures !InGrid(c, cols)
  {
    StartOf(ss, where, cols, c);
  }

  /** Every entry the scan has passed before `at` names a board cell. */
  ghost predicate CleanBefore(g: Assignment, cols: int, at: Cell)
  {
    forall c {:trigger ScanBefore(c, at)} :: c in g && ScanBefore(c, at) ==> InGrid(g[c], cols)
  }

  lemma CleanStep(g: Assignment, cols: int, x: int, y: int)
    requires CleanBefore(g, cols, Cell(x, y))
    requires Cell(x, y) in g ==> InGrid(g[Cell(x, y)], cols)
    ensures CleanBefore(g, cols, Cell(x, y + 1))
  {
    forall c | c in g && ScanBefore(c, Cell(x, y + 1)) && c != Cell(x, y)
      ensures InGrid(g[c], cols)
    {
      assert ScanBefore(c, Cell(x, y));
    }
  }

  /** Having passed the whole board, the scan has passed every entry. */
  lemma CleanAll(g: Assignment, cols: int)
    requires WellFormed(g, cols) && CleanBefore(g, cols, Cell(cols, 0))
    ensures forall c :: c in g ==> InGrid(g[c], cols)
  {
    forall c | c in g
      ensures InGrid(g[c], cols)
    {
      assert ScanBefore(c, Cell(cols, 0));
    }
  }

  /** Scanning a cell without an entry changes nobody. */
  lemma ScanSkip(ss: seq<CircleState>, g: Assignment, x: int, y: int)
    requires Cell(x, y) !in g
    ensures forall i :: 0 <= i < |ss| ==> Scanned(ss[i], g, Cell(x, y + 1)) == Scanned(ss[i], g, Cell(x, y))
  {
  }

  /** Scanning a cell with an entry pairs the one circle starting there. */
  lemma ScanAdvance(ss: seq<CircleState>, g: Assignment, where: map<Cell, nat>, cols: int, x: int, y: int, k: nat)
    requires StartMap(ss, where, cols)
    requires Cell(x, y) in g && k < |ss| && ss[k].start == Cell(x, y)
    ensures Scanned(ss[k], g, Cell(x, y + 1)) == PairedWith(Scanned(ss[k], g, Cell(x, y)), g[Cell(x, y)])
    ensures forall i :: 0 <= i < |ss| && i != k ==> Scanned(ss[i], g, Cell(x, y + 1)) == Scanned(ss[i], g, Cell(x, y))
  {
    forall i | 0 <= i < |ss| && i != k
      ensures Scanned(ss[i], g, Cell(x, y + 1)) == Scanned(ss[i], g, Cell(x, y))
    {
      assert where[ss[i].start] != where[ss[k].start];
    }
  }

  /** On the board, having scanned all of column x is having reached the
      top of column x + 1. */
  lemma RowDone(ss: seq<CircleState>, g: Assignment, where: map<Cell, nat>, x: int, cols: int)
    requires StartMap(ss, where, cols)
    requires WellFormed(g, cols)
    ensures forall i :: 0 <= i < |ss| ==> Scanned(ss[i], g, Cell(x, cols)) == Scanned(ss[i], g, Cell(x + 1, 0))
    ensures CleanBefore(g, cols, Cell(x, cols)) ==> CleanBefore(g, cols, Cell(x + 1, 0))
  {
    if CleanBefore(g, cols, Cell(x, cols)) {
      forall c | c in g && ScanBefore(c, Cell(x + 1, 0))
        ensures InGrid(g[c], cols)
      {
        assert ScanBefore(c, Cell(x, cols));
      }
    }
  }

  /** The circles of a running sketch: one per board cell, each cell the
      start of exactly one circle and the end of exactly one circle, and
      every trail within its bounds. */
  ghost predicate ValidStates(ss: seq<CircleState>, cols: int)
  {
    && |ss| == cols * cols
    && Bijective(StartsOf(ss), cols)
    && Bijective(EndsOf(ss), cols)
    && forall i :: 0 <= i < |ss| ==> TrailBounded(ss[i])
  }

  /** The circles after a frame, and whether the frame ran to its end (false
      when `_make_pairs` or the grid scan threw a TypeError). */
  datatype FrameResult = FrameResult(states: seq<CircleState>, ok: bool)

  /** One call of `draw`, rendering aside. On the first frame of a period
      every circle is reset and paired through a fresh grid; when that
      throws, the frame ends with the circles reset and unmoved. */
  function DrawFrame(ss: seq<CircleState>, cols: int, duration: nat, frameCount: nat, d: Draws): (r: FrameResult)
    requires duration >= 1 && ValidDraws(d)
    ensures |r.states| == |ss|
    ensures r.ok <==> frameCount % duration != 0 || Materializable(MakePairs(cols, map[], d), cols)
    ensures !r.ok ==> r.states == ResetEach(ss)
  {
    var percent := Easing.FramePercent(frameCount, duration);
    if percent == 0.0 then
      var reset := ResetEach(ss);
      var o := MakePairs(cols, map[], d);
      if Materializable(o, cols) then FrameResult(MoveEach(PairEach(reset, o.grid), percent), true)
      else FrameResult(reset, false)
    else FrameResult(MoveEach(ss, percent), true)
  }

  /** `setup`'s circles: one fresh circle per board cell, in index order. */
  function SetupStates(cols: nat): (ss: seq<CircleState>)
    ensures |ss| == cols * cols
    ensures forall i :: 0 <= i < |ss| ==> ss[i] == Initial(SetupCells(cols)[i])
    ensures StartsOf(ss) == SetupCells(cols) == EndsOf(ss)
  {
    var cells := SetupCells(cols);
    var ss := seq(|cells|, i requires 0 <= i < |cells| => Initial(cells[i]));
    assert StartsOf(ss) == cells == EndsOf(ss);
    ss
  }

  /** `setup` starts a valid sketch: each board cell holds exactly one
      circle, which starts and ends there. */
  lemma SetupValid(cols: nat)
    ensures ValidStates(SetupStates(cols), cols)
    ensures StartsOf(SetupStates(cols)) == SetupCells(cols) == EndsOf(SetupStates(cols))
  {
    SetupCellsBijective(cols);
    var ss := SetupStates(cols);
    assert StartsOf(ss) == SetupCells(cols);
    assert EndsOf(ss) == SetupCells(cols);
  }

  /** With no board at all, `_make_pairs` throws reading the anchor. */
  lemma NoBoardThrows(d: Draws)
    requires ValidDraws(d)
    ensures MakePairs(0, map[], d).Thrown?
  {
  }

  /** A frame keeps the sketch valid: start cells and end cells stay
      bijections onto the board. At a boundary the reset makes every circle
      start from its old end, and the new ends follow the single cycle
      `_make_pairs` wrote, which permutes the board. */
  lemma DrawFrameKeepsValid(ss: seq<CircleState>, cols: int, duration: nat, frameCount: nat, d: Draws)
    requires duration >= 1 && ValidDraws(d) && ValidStates(ss, cols)
    ensures ValidStates(DrawFrame(ss, cols, duration, frameCount, d).states, cols)
  {
    var percent := Easing.FramePercent(frameCount, duration);
    if percent == 0.0 && Materializable(MakePairs(cols, map[], d), cols) {
      BoundaryKeepsValid(ss, cols, percent, d);
    }
  }

  /** A boundary that completes keeps the sketch valid: after the reset
      every circle starts from its old end, and the new ends follow the
      single cycle `_make_pairs` wrote, which permutes the board. */
  lemma BoundaryKeepsValid(ss: seq<CircleState>, cols: int, percent: real, d: Draws)
    requires ValidDraws(d) && ValidStates(ss, cols)
    requires Materializable(MakePairs(cols, map[], d), cols)
    ensures ValidStates(MoveEach(PairEach(ResetEach(ss), MakePairs(cols, map[], d).grid), percent), cols)
  {
    if cols <= 0 {
      NoBoardThrows(d);
      assert false;
    }
    MakePairsFromCleared(cols, d);
    var reset := ResetEach(ss);
    PermutationKeepsBijective(StartsOf(reset), MakePairs(cols, map[], d).grid, cols);
  }

  /** A frame fails only on the first frame of a period, and, on a board,
      only when the side draw of `_make_pairs` is exactly 0. */
  lemma DrawFrameFailsRarely(ss: seq<CircleState>, cols: int, duration: nat, frameCount: nat, d: Draws)
    requires duration >= 1 && ValidDraws(d)
    ensures var r := DrawFrame(ss, cols, duration, frameCount, d);
            && (!r.ok ==> frameCount % duration == 0)
            && (!r.ok && cols >= 1 ==> d.side == 0.0)
  {
    if cols >= 1 {
      MakePairsFromCleared(cols, d);
    }
  }

  /** Between boundaries the circles keep their cells and glide: each is
      drawn between its start and its end, and records where it was. */
  lemma DrawFrameGlides(ss: seq<CircleState>, cols: int, duration: nat, frameCount: nat, d: Draws)
    requires duration >= 1 && ValidDraws(d)
    requires frameCount % duration != 0
    ensures var r := DrawFrame(ss, cols, duration, frameCount, d);
            && r.ok && |r.states| == |ss|
            && forall i :: 0 <= i < |ss| ==>
                 && r.states[i].start == ss[i].start && r.states[i].end == ss[i].end
                 && Between(r.states[i].pos, ss[i].start, ss[i].end)
                 && r.states[i].trail[0] == ss[i].pos
  {
  }

  /** On the first frame of a period that runs to its end, every circle
      starts from its old end and rests there, and its new end is what the
      grid says for that cell; only circles on the cycle `_make_pairs`
      wrote get an end other than their start. */
  lemma DrawFrameSwaps(ss: seq<CircleState>, cols: int, duration: nat, frameCount: nat, d: Draws)
    requires duration >= 1 && ValidDraws(d)
    requires frameCount % duration == 0
    ensures var r := DrawFrame(ss, cols, duration, frameCount, d);
            var g := MakePairs(cols, map[], d).grid;
            r.ok ==>
              && |r.states| == |ss|
              && forall i :: 0 <= i < |ss| ==>
                   && r.states[i].start == ss[i].end && AtRest(r.states[i])
                   && r.states[i].end == Follow(g, ss[i].end)
                   && (r.states[i].end != r.states[i].start ==> r.states[i].start in PlannedCorners(cols, map[], d))
  {
    var r := DrawFrame(ss, cols, duration, frameCount, d);
    var g := MakePairs(cols, map[], d).grid;
    if r.ok {
      MakePairsFrame(cols, map[], d);
      forall i | 0 <= i < |ss| && r.states[i].end != r.states[i].start
        ensures r.states[i].start in PlannedCorners(cols, map[], d)
      {
        assert r.states[i].start in g;
      }
    }
  }

  /** The array holds exactly the entries of g, and g has entries only on
      the board. */
  ghost predicate Mirrors(a: array2<Option<Cell>>, g: Assignment, cols: int)
    reads a
  {
    && a.Length0 == cols && a.Length1 == cols
    && WellFormed(g, cols)
    && forall x, y :: 0 <= x < cols && 0 <= y < cols ==> a[x, y] == Lookup(g, Cell(x, y))
  }

  /** After a full reset every circle rests on its end cell, so pairing it
      through an entry-less cell leaves it as it is. */
  lemma ScanCompleted(ss: seq<CircleState>, g: Assignment, cols: int)
    requires forall i :: 0 <= i < |ss| ==> ss[i].end == ss[i].start && InGrid(ss[i].start, cols)
    ensures ScannedAll(ss, g, Cell(cols, 0)) == PairEach(ss, g)
  {
  }

  /** A scan that stopped at an off-board entry met before any other entry
      has paired nothing. */
  lemma ScanStoppedFirst(ss: seq<CircleState>, g: Assignment, cols: int, b: Cell)
    requires OffBoardEntryFirst(g, cols) && b in g && !InGrid(g[b], cols)
    ensures ScannedAll(ss, g, b) == ss
  {
  }

  /** After `resetPos` on every circle of a valid sketch, the start cells
      are the old end cells, a bijection onto the board, and every circle
      rests on its own end cell. */
  lemma ResetRests(ss: seq<CircleState>, cols: int)
    requires ValidStates(ss, cols)
    ensures Bijective(StartsOf(ResetEach(ss)), cols)
    ensures forall i :: 0 <= i < |ss| ==> ResetEach(ss)[i].end == ResetEach(ss)[i].start && InGrid(ResetEach(ss)[i].start, cols)
  {
    var reset := ResetEach(ss);
    assert StartsOf(reset) == EndsOf(ss);
    forall i | 0 <= i < |ss|
      ensures InGrid(reset[i].start, cols)
    {
      assert EndsOf(ss)[i] == reset[i].start;
    }
  }

  /** The JavaScript `Sketch`, with `preload`'s board size and period as
      constructor parameters. */
  class Sketch {
    const cols: nat
    const duration: nat
    var circles: seq<Circle>
    /** `_assigned_position`; null until the first boundary frame of `Draw`. */
    var assignment: array2?<Option<Cell>>
    /** The position of each circle in `circles`; it shows that no circle
        appears twice. */
    ghost var index: map<Circle, nat>

    function States(): (ss: seq<CircleState>)
      reads this, circles
      ensures |ss| == |circles|
    {
      seq(|circles|, i reads this, circles requires 0 <= i < |circles| => circles[i].State())
    }

    /** No circle appears twice in `circles`. */
    ghost predicate Indexed()
      reads this
    {
      forall i :: 0 <= i < |circles| ==> circles[i] in index && index[circles[i]] == i
    }

    ghost predicate Valid()
      reads this, circles
    {
      && duration >= 1
      && Indexed()
      && ValidStates(States(), cols)
    }

    /** `preload` and `setup`: the circles, one per cell in index order. */
    constructor(cols: nat, duration: nat)
      requires duration >= 1
      ensures Valid() && States() == SetupStates(cols) && assignment == null
      ensures this.cols == cols && this.duration == duration
      ensures forall i :: 0 <= i < |circles| ==> fresh(circles[i])
    {
      this.cols := cols;
      this.duration := duration;
      var made: seq<Circle> := [];
      ghost var at: map<Circle, nat> := map[];
      var i := 0;
      while i < cols * cols
        invariant 0 <= i <= cols * cols && |made| == i
        invariant forall k :: 0 <= k < i ==> fresh(made[k])
        invariant forall k :: 0 <= k < i ==> made[k] in at && at[made[k]] == k
        invariant forall k :: 0 <= k < i ==> made[k].State() == Initial(SetupCells(cols)[k])
      {
        var pos := XyFromIndex(i, cols);
        var circle := new Circle(pos.x, pos.y);
        made := made + [circle];
        at := at[circle := i];
        i := i + 1;
      }
      circles := made;
      index := at;
      assignment := null;
      new;
      SetupValid(cols);
      assert States() == SetupStates(cols);
    }

    /** `this._circles.forEach(c => c.resetPos())`. */
    method ResetAll()
      requires Indexed()
      modifies circles
      ensures States() == ResetEach(old(States()))
    {
      var i := 0;
      while i < |circles|
        invariant 0 <= i <= |circles|
        invariant forall k :: 0 <= k < i ==> circles[k].State() == Reset(old(circles[k].State()))
        invariant forall k :: i <= k < |circles| ==> circles[k].State() == old(circles[k].State())
      {
        circles[i].ResetPos();
        i := i + 1;
      }
    }

    /** The loop of `draw` that calls `move(percent)` on every circle; its
        `show` calls draw on the canvas and are not modelled. */
    method MoveAll(percent: real)
      requires Indexed()
      modifies circles
      ensures States() == MoveEach(old(States()), percent)
    {
      var i := 0;
      while i < |circles|
        invariant 0 <= i <= |circles|
        invariant forall k :: 0 <= k < i ==> circles[k].State() == Moved(old(circles[k].State()), percent)
        invariant forall k :: i <= k < |circles| ==> circles[k].State() == old(circles[k].State())
      {
        circles[i].Move(percent);
        i := i + 1;
      }
    }

    /** `this._assigned_position[at.x][at.y] = to`. */
    method Write(at: Cell, to: Cell, ghost g: Assignment) returns (ok: bool)
      requires assignment != null && Mirrors(assignment, g, cols)
      modifies assignment
      ensures ok == Put(cols, g, at, to).Done?
      ensures Mirrors(assignment, Put(cols, g, at, to).grid, cols)
    {
      if !(0 <= at.x < cols) {
        return false;
      }
      if 0 <= at.y < cols {
        assignment[at.x, at.y] := Some(to);
      }
      return true;
    }

    /** The direction list of `_make_pairs`: the directions open from the
        anchor, pushed in order into an array, which `shuffle_array`
        shuffles in place. */
    method ShuffledDirections(first: Cell, shuffle: seq<real>) returns (dirs: seq<int>)
      requires |shuffle| >= 3 && AllUnitDraws(shuffle)
      ensures dirs == Shuffled(Directions(cols, first), shuffle)
      ensures multiset(dirs) == multiset(Directions(cols, first))
    {
      var pushed: seq<int> := [];
      if first.x < cols - 1 { pushed := pushed + [0]; }
      if first.y < cols - 1 { pushed := pushed + [1]; }
      if first.x > 0 { pushed := pushed + [2]; }
      if first.y > 0 { pushed := pushed + [3]; }
      assert pushed == Directions(cols, first);
      var arr := new int[|pushed|](k requires 0 <= k < |pushed| => pushed[k]);
      assert arr[..] == pushed;
      ShuffleArray(arr, shuffle);
      dirs := arr[..];
    }

    /** The part of `_make_pairs` after the anchor: the shuffled direction
        list, the pick from it, the side length, and the corners of the
        chosen branch. */
    method ChooseSquare(first: Cell, d: Draws) returns (cs: seq<Cell>)
      requires ValidDraws(d)
      ensures ChosenDirection(cols, first, d).None? ==> cs == []
      ensures ChosenDirection(cols, first, d).Some? ==>
                var dir := ChosenDirection(cols, first, d).value;
                cs == Corners(first, dir, SideLength(cols, first, dir, d.side))
    {
      var dirs := ShuffledDirections(first, d.shuffle);
      var picked := RandomFromArray(dirs, d.pick);
      assert picked == ChosenDirection(cols, first, d);
      if picked.None? {
        return [];
      }
      cs := Square(first, picked.value, d.side);
    }

    /** The branch of direction dir: the side, `random_int(1, max)`, and the
        four corners it writes. */
    method Square(first: Cell, dir: int, r: real) returns (cs: seq<Cell>)
      requires IsUnitDraw(r)
      ensures cs == Corners(first, dir, SideLength(cols, first, dir, r))
    {
      var max := if dir == 0 || dir == 1 then Min(cols - first.x, cols - first.y) else Min(first.x, first.y);
      var side := RandomInt(1, max, r);
      cs := Corners(first, dir, side);
    }

    /** The four writes of a branch, each corner mapped to the next and the
        last to the first, stopping at the first that throws. */
    method WriteCycle(cs: seq<Cell>, ghost g: Assignment) returns (ok: bool)
      requires |cs| == 0 || |cs| == 4
      requires assignment != null && Mirrors(assignment, g, cols)
      modifies assignment
      ensures ok == ApplyWrites(cols, g, CycleWrites(cs)).Done?
      ensures Mirrors(assignment, ApplyWrites(cols, g, CycleWrites(cs)).grid, cols)
    {
      ghost var ws := CycleWrites(cs);
      if |cs| == 0 {
        assert ws == [];
        return true;
      }
      ghost var h := g;
      ok := Write(cs[0], cs[1], h);
      if !ok {
        return;
      }
      h := Put(cols, h, cs[0], cs[1]).grid;
      assert ApplyWrites(cols, g, ws) == ApplyWrites(cols, h, ws[1..]);
      ok := Write(cs[1], cs[2], h);
      if !ok {
        return;
      }
      h := Put(cols, h, cs[1], cs[2]).grid;
      assert ApplyWrites(cols, h, ws[2..]) == ApplyWrites(cols, g, ws);
      ok := Write(cs[2], cs[3], h);
      if !ok {
        return;
      }
      h := Put(cols, h, cs[2], cs[3]).grid;
      assert ApplyWrites(cols, h, ws[3..]) == ApplyWrites(cols, g, ws);
      ok := Write(cs[3], cs[0], h);
      if !ok {
        return;
      }
      h := Put(cols, h, cs[3], cs[0]).grid;
      assert ApplyWrites(cols, h, ws[4..]) == ApplyWrites(cols, g, ws);
    }

    /** `_make_pairs`, writing the grid in place; false when it throws.
        Its loop runs exactly once, so it is written out straight. */
    method MakePairs(d: Draws, ghost g: Assignment) returns (ok: bool)
      requires ValidDraws(d) && assignment != null && Mirrors(assignment, g, cols)
      modifies assignment
      ensures ok == Pairing.MakePairs(cols, g, d).Done?
      ensures Mirrors(assignment, Pairing.MakePairs(cols, g, d).grid, cols)
    {
      var first := Cell(RandomBelow(cols - 1, d.anchorX), RandomBelow(cols - 1, d.anchorY));
      assert first == Anchor(cols, d);
      if !(0 <= first.x < cols) {
        return false;
      }
      if 0 <= first.y < cols && assignment[first.x, first.y].Some? {
        return true;
      }
      var cs := ChooseSquare(first, d);
      assert first !in g;
      assert cs == PlannedCorners(cols, g, d);
      MakePairsIsPlannedWrites(cols, g, d);
      ok := WriteCycle(cs, g);
    }

    /** The circles stand where the scan has left them on reaching `at`. */
    ghost predicate ScannedTo(s0: seq<CircleState>, g: Assignment, at: Cell)
      reads this, circles
    {
      && |s0| == |circles|
      && forall i :: 0 <= i < |circles| ==> circles[i].State() == Scanned(s0[i], g, at)
    }

    /** One cell of the grid scan of `draw`: when the cell holds an entry,
        the circle starting there is paired with the circle starting on the
        entry. When no circle starts on the entry the call throws; here it
        returns false, having changed nothing. */
    method ScanCell(a: array2<Option<Cell>>, x: int, y: int, ghost g: Assignment, ghost s0: seq<CircleState>, ghost where: map<Cell, nat>) returns (ok: bool)
      requires Mirrors(a, g, cols)
      requires 0 <= x < cols && 0 <= y < cols
      requires Indexed()
      requires StartMap(s0, where, cols)
      requires ScannedTo(s0, g, Cell(x, y))
      modifies circles
      ensures ok == (Cell(x, y) in g ==> InGrid(g[Cell(x, y)], cols))
      ensures ok ==> ScannedTo(s0, g, Cell(x, y + 1))
      ensures !ok ==> ScannedTo(s0, g, Cell(x, y))
    {
      var entry := a[x, y];
      assert entry == Lookup(g, Cell(x, y));
      if entry.None? {
        SkipKeeps(s0, g, x, y);
        return true;
      }
      ok := PairCell(x, y, entry.value, g, s0, where);
    }

    /** Passing a cell without an entry changes no circle. */
    lemma SkipKeeps(s0: seq<CircleState>, g: Assignment, x: int, y: int)
      requires Cell(x, y) !in g && ScannedTo(s0, g, Cell(x, y))
      ensures ScannedTo(s0, g, Cell(x, y + 1))
    {
      ScanSkip(s0, g, x, y);
    }

    /** The pairing of the scan at a cell holding an entry: both lookups by
        start cell, then `pair`. */
    method PairCell(x: int, y: int, to: Cell, ghost g: Assignment, ghost s0: seq<CircleState>, ghost where: map<Cell, nat>) returns (ok: bool)
      requires InGrid(Cell(x, y), cols) && Cell(x, y) in g && g[Cell(x, y)] == to
      requires Indexed()
      requires StartMap(s0, where, cols)
      requires ScannedTo(s0, g, Cell(x, y))
      modifies circles
      ensures ok == InGrid(to, cols)
      ensures ok ==> ScannedTo(s0, g, Cell(x, y + 1))
      ensures !ok ==> ScannedTo(s0, g, Cell(x, y))
    {
      var current := CircleOn(Cell(x, y), g, s0, where, Cell(x, y));
      var next := CircleOn(to, g, s0, where, Cell(x, y));
      if next.None? {
        return false;
      }
      PairAt(current.value, next.value, g, s0, where, x, y);
      return true;
    }

    /** `FindCircle` during the scan: a circle starts on c exactly when c
        is on the board. */
    method CircleOn(c: Cell, ghost g: Assignment, ghost s0: seq<CircleState>, ghost where: map<Cell, nat>, ghost at: Cell) returns (r: Option<nat>)
      requires StartMap(s0, where, cols) && ScannedTo(s0, g, at)
      ensures r.Some? <==> InGrid(c, cols)
      ensures r.Some? ==> r.value < |s0| && s0[r.value].start == c
    {
      r := FindCircle(c);
      if r.None? {
        NotAStart(s0, where, cols, c);
      } else {
        assert circles[r.value].State().start == s0[r.value].start;
      }
    }

    /** The pairing step of the scan: the circle starting on `at` is told to
        glide to the start cell of the circle starting on its entry. */
    method PairAt(ci: nat, ni: nat, ghost g: Assignment, ghost s0: seq<CircleState>, ghost where: map<Cell, nat>, ghost x: int, ghost y: int)
      requires Indexed()
      requires StartMap(s0, where, cols) && ScannedTo(s0, g, Cell(x, y))
      requires Cell(x, y) in g && ci < |circles| && ni < |circles|
      requires s0[ci].start == Cell(x, y) && s0[ni].start == g[Cell(x, y)]
      modifies circles
      ensures ScannedTo(s0, g, Cell(x, y + 1))
    {
      ScanAdvance(s0, g, where, cols, x, y, ci);
      circles[ci].Pair(circles[ni]);
      forall i | 0 <= i < |circles|
        ensures circles[i].State() == Scanned(s0[i], g, Cell(x, y + 1))
      {
        if i != ci {
          assert index[circles[i]] != index[circles[ci]];
          assert circles[i].State() == old(circles[i].State());
        }
      }
    }

    /** One column of the grid scan, top to bottom. When it stops early, y
        is the row of the entry that named a cell no circle starts on. */
    method ScanColumn(a: array2<Option<Cell>>, x: int, ghost g: Assignment, ghost s0: seq<CircleState>, ghost where: map<Cell, nat>) returns (ok: bool, y: int)
      requires Mirrors(a, g, cols)
      requires 0 <= x < cols
      requires Indexed()
      requires StartMap(s0, where, cols)
      requires ScannedTo(s0, g, Cell(x, 0)) && CleanBefore(g, cols, Cell(x, 0))
      modifies circles
      ensures ok ==> ScannedTo(s0, g, Cell(x, cols)) && CleanBefore(g, cols, Cell(x, cols))
      ensures !ok ==> 0 <= y < cols && Cell(x, y) in g && !InGrid(g[Cell(x, y)], cols)
      ensures !ok ==> ScannedTo(s0, g, Cell(x, y)) && CleanBefore(g, cols, Cell(x, y))
    {
      y := 0;
      ok := true;
      while y < cols
        invariant 0 <= y <= cols
        invariant ScannedTo(s0, g, Cell(x, y)) && CleanBefore(g, cols, Cell(x, y))
      {
        ok := ScanCell(a, x, y, g, s0, where);
        if !ok {
          return;
        }
        CleanStep(g, cols, x, y);
        y := y + 1;
      }
      assert y == cols;
    }

    /** The two loops of the grid scan, x outer, y inner, over the circles
        as they were before it. When it stops early, `stop` is the cell
        whose entry named a cell no circle starts on. */
    method ScanGrid(a: array2<Option<Cell>>, ghost g: Assignment, ghost s0: seq<CircleState>, ghost where: map<Cell, nat>) returns (ok: bool, ghost stop: Cell)
      requires Mirrors(a, g, cols)
      requires Indexed()
      requires StartMap(s0, where, cols)
      requires ScannedTo(s0, g, Cell(0, 0))
      modifies circles
      ensures ok ==> ScannedTo(s0, g, Cell(cols, 0)) && CleanBefore(g, cols, Cell(cols, 0))
      ensures !ok ==> stop in g && !InGrid(g[stop], cols) && ScannedTo(s0, g, stop)
    {
      var x := 0;
      while x < cols
        invariant 0 <= x <= cols
        invariant ScannedTo(s0, g, Cell(x, 0)) && CleanBefore(g, cols, Cell(x, 0))
      {
        var y;
        ok, y := ScanColumn(a, x, g, s0, where);
        if !ok {
          return false, Cell(x, y);
        }
        RowDone(s0, g, where, x, cols);
        forall i | 0 <= i < |circles|
          ensures circles[i].State() == Scanned(s0[i], g, Cell(x + 1, 0))
        {
          assert circles[i].State() == Scanned(s0[i], g, Cell(x, cols));
        }
        x := x + 1;
      }
      assert x == cols;
      return true, Cell(cols, 0);
    }

    /** The grid scan of `draw`: x outer, y inner. It stops at the first
        entry naming a cell no circle starts on. */
    method Materialize(ghost g: Assignment) returns (ok: bool)
      requires assignment != null && Mirrors(assignment, g, cols)
      requires Indexed()
      requires Bijective(StartsOf(States()), cols)
      modifies circles
      ensures ok ==> States() == ScannedAll(old(States()), g, Cell(cols, 0))
      ensures ok <==> forall c :: c in g ==> InGrid(g[c], cols)
      ensures !ok ==> exists b :: b in g && !InGrid(g[b], cols) && States() == ScannedAll(old(States()), g, b)
    {
      ghost var s0 := States();
      ghost var where := BuildStartMap(s0, cols);
      ScanStart(s0, g, where, cols);
      ghost var stop;
      ok, stop := ScanGrid(assignment, g, s0, where);
      if !ok {
        assert States() == ScannedAll(s0, g, stop);
        return;
      }
      CleanAll(g, cols);
      assert States() == ScannedAll(s0, g, Cell(cols, 0));
    }

    /** `_assigned_position` made afresh, cols arrays of cols empty
        entries, then filled by `_make_pairs`. */
    method NewPairs(d: Draws) returns (made: bool)
      requires ValidDraws(d)
      modifies this
      ensures circles == old(circles) && index == old(index) && States() == old(States())
      ensures assignment != null && fresh(assignment)
      ensures made == Pairing.MakePairs(cols, map[], d).Done?
      ensures Mirrors(assignment, Pairing.MakePairs(cols, map[], d).grid, cols)
    {
      var a := new Option<Cell>[cols, cols]((x, y) => None);
      assignment := a;
      assert Mirrors(a, map[], cols);
      made := MakePairs(d, map[]);
    }

    /** The first frame of a period, up to the move loop: every circle is
        reset, a fresh empty grid is filled by `_make_pairs`, and the grid
        scan pairs the circles. False when either throws; the circles are
        then reset and paired with nothing. */
    method Boundary(d: Draws) returns (ok: bool)
      requires Indexed() && ValidStates(States(), cols) && ValidDraws(d)
      modifies this, circles
      ensures circles == old(circles) && index == old(index)
      ensures var o := Pairing.MakePairs(cols, map[], d);
              && ok == Materializable(o, cols)
              && (ok ==> States() == PairEach(ResetEach(old(States())), o.grid))
              && (!ok ==> States() == ResetEach(old(States())))
    {
      ghost var ss := States();
      ResetAll();
      var made := NewPairs(d);
      assert States() == ResetEach(ss);
      if !made {
        return false;
      }
      ok := PairAll(d, ss);
    }

    /** The grid scan of the first frame of a period, over the circles of a
        valid sketch just reset and a grid `_make_pairs` filled without
        throwing. False when the scan throws; the circles are then
        unchanged. */
    method PairAll(d: Draws, ghost ss: seq<CircleState>) returns (ok: bool)
      requires ValidDraws(d) && Indexed()
      requires Pairing.MakePairs(cols, map[], d).Done?
      requires assignment != null && Mirrors(assignment, Pairing.MakePairs(cols, map[], d).grid, cols)
      requires ValidStates(ss, cols) && States() == ResetEach(ss)
      modifies circles
      ensures var o := Pairing.MakePairs(cols, map[], d);
              && ok == Materializable(o, cols)
              && (ok ==> States() == PairEach(old(States()), o.grid))
              && (!ok ==> States() == old(States()))
    {
      ghost var reset := States();
      ResetRests(ss, cols);
      ghost var g := Pairing.MakePairs(cols, map[], d).grid;
      if cols == 0 {
        NoBoardThrows(d);
        assert false;
      }
      MakePairsFromCleared(cols, d);
      ok := Materialize(g);
      if !ok {
        ghost var b :| b in g && !InGrid(g[b], cols) && States() == ScannedAll(reset, g, b);
        ScanStoppedFirst(reset, g, cols, b);
        return;
      }
      ScanCompleted(reset, g, cols);
    }

    /** `draw`, rendering aside: on the first frame of a period the
        boundary work, then `move(percent)` on every circle. False when the
        frame threw before its move loop. */
    method Draw(frameCount: nat, d: Draws) returns (ok: bool)
      requires Valid() && ValidDraws(d)
      modifies this, circles
      ensures circles == old(circles)
      ensures FrameResult(States(), ok) == DrawFrame(old(States()), cols, duration, frameCount, d)
      ensures Valid()
    {
      ghost var ss := States();
      var percent := Easing.FramePercent(frameCount, duration);
      if percent == 0.0 {
        ok := Boundary(d);
        if !ok {
          DrawFrameKeepsValid(ss, cols, duration, frameCount, d);
          return;
        }
      }
      MoveAll(percent);
      ok := true;
      DrawFrameKeepsValid(ss, cols, duration, frameCount, d);
    }

    /** `this._circles.filter(c => c.x == at.x && c.y == at.y)[0]`: the
        index of the first circle starting on the cell, or `undefined`. */
    method FindCircle(at: Cell) returns (r: Option<nat>)
      ensures r.Some? ==> r.value < |circles| && circles[r.value].State().start == at
      ensures r.Some? ==> forall k :: 0 <= k < r.value ==> circles[k].State().start != at
      ensures r.None? ==> forall k :: 0 <= k < |circles| ==> circles[k].State().start != at
    {
      var i := 0;
      while i < |circles|
        invariant 0 <= i <= |circles|
        invariant forall k :: 0 <= k < i ==> circles[k].State().start != at
      {
        if circles[i].X() == at.x && circles[i].Y() == at.y {
          return Some(i);
        }
        i := i + 1;
      }
      return None;
    }
  }
}
