/** `_make_pairs` as a function of the assignment grid and of the random
    draws it consumes, with the facts the step orchestration relies on: the
    entries it writes close into one cycle, it touches nothing else, and
    from an empty grid it leaves a permutation of the cells it assigns. */
module Pairing {
  import opened Grid
  import opened Randomness

  /** The `Math.random()` draws of one `_make_pairs` call, in the order the
      code takes them: the anchor's x and y, the shuffle of the direction
      list (at most three), the pick from that list, and the side length. */
  datatype Draws = Draws(anchorX: real, anchorY: real, shuffle: seq<real>, pick: real, side: real)

  predicate ValidDraws(d: Draws)
  {
    && IsUnitDraw(d.anchorX) && IsUnitDraw(d.anchorY)
    && |d.shuffle| >= 3 && AllUnitDraws(d.shuffle)
    && IsUnitDraw(d.pick) && IsUnitDraw(d.side)
  }

  /** The entries of `_assigned_position`: a cell maps to its destination.
      A cell without an entry holds `undefined`. */
  type Assignment = map<Cell, Cell>

  /** Every entry sits on a board cell, as in a cols x cols array. */
  ghost predicate WellFormed(g: Assignment, cols: int)
  {
    forall c :: c in g ==> InGrid(c, cols)
  }

  /** How `_make_pairs` ends: normally, or with a TypeError from indexing a
      column that does not exist. Either way, the grid it leaves. */
  datatype Outcome = Done(grid: Assignment) | Thrown(grid: Assignment)

  /** `first`: the anchor, `random_int(cols - 1)` on each axis. */
  function Anchor(cols: int, d: Draws): (f: Cell)
    requires ValidDraws(d)
    ensures cols >= 2 ==> 0 <= f.x <= cols - 2 && 0 <= f.y <= cols - 2
    ensures cols == 1 ==> f == Cell(0, 0)
  {
    Cell(RandomBelow(cols - 1, d.anchorX), RandomBelow(cols - 1, d.anchorY))
  }

  /** `dirs`: the directions pushed for the anchor, in push order. */
  function Directions(cols: int, f: Cell): (dirs: seq<int>)
    ensures |dirs| <= 4
    ensures forall dir :: dir in dirs <==>
              || (dir == 0 && f.x < cols - 1)
              || (dir == 1 && f.y < cols - 1)
              || (dir == 2 && f.x > 0)
              || (dir == 3 && f.y > 0)
  {
    (if f.x < cols - 1 then [0] else [])
    + (if f.y < cols - 1 then [1] else [])
    + (if f.x > 0 then [2] else [])
    + (if f.y > 0 then [3] else [])
  }

  /** `current_dir`: `random_from_array` of the shuffled direction list;
      `None` stands for `undefined`, which matches no branch. */
  function ChosenDirection(cols: int, f: Cell, d: Draws): (dir: Option<int>)
    requires ValidDraws(d)
    ensures dir.Some? <==> |Directions(cols, f)| > 0
    ensures dir.Some? ==> dir.value in Directions(cols, f)
  {
    var dirs := Directions(cols, f);
    var shuffled := Shuffled(dirs, d.shuffle);
    ShuffledMembers(dirs, d.shuffle);
    RandomFromArray(shuffled, d.pick)
  }

  /** A shuffle keeps the length and the members of its input. */
  lemma ShuffledMembers<T>(s: seq<T>, draws: seq<real>)
    requires |draws| + 1 >= |s| && AllUnitDraws(draws)
    ensures |Shuffled(s, draws)| == |s|
    ensures forall v :: v in Shuffled(s, draws) <==> v in s
  {
    var t := Shuffled(s, draws);
    forall v
      ensures v in t <==> v in s
    {
      assert v in t <==> v in multiset(t);
      assert v in s <==> v in multiset(s);
    }
  }

  /** `side`: `random_int(1, max)`, where max is the room towards the far
      corner for directions 0 and 1 and towards the origin for 2 and 3. */
  function SideLength(cols: int, f: Cell, dir: int, r: real): (side: int)
    requires IsUnitDraw(r)
    ensures var max := if dir == 0 || dir == 1 then Min(cols - f.x, cols - f.y) else Min(f.x, f.y);
            && (max > 1 ==> 1 <= side < max)
            && (max <= 1 ==> max <= side <= 1)
            && (r == 0.0 ==> side == 1)
  {
    if dir == 0 || dir == 1 then RandomInt(1, Min(cols - f.x, cols - f.y), r)
    else RandomInt(1, Min(f.x, f.y), r)
  }

  /** The four corners a branch visits, in the order of its writes:
      direction 0 turns clockwise through the bottom-right square, 1
      counter-clockwise through it, 2 clockwise through the top-left square
      and 3 counter-clockwise through it. Any other direction writes nothing. */
  function Corners(f: Cell, dir: int, side: int): (cs: seq<Cell>)
    ensures 0 <= dir < 4 ==> |cs| == 4 && cs[0] == f
    ensures !(0 <= dir < 4) ==> cs == []
  {
    var x, y, s := f.x, f.y, side;
    match dir
    case 0 => [f, Cell(x + s, y), Cell(x + s, y + s), Cell(x, y + s)]
    case 1 => [f, Cell(x, y + s), Cell(x + s, y + s), Cell(x + s, y)]
    case 2 => [f, Cell(x - s, y), Cell(x - s, y - s), Cell(x, y - s)]
    case 3 => [f, Cell(x, y - s), Cell(x - s, y - s), Cell(x - s, y)]
    case _ => []
  }

  /** The position after k in a cycle of length n. */
  function Next(k: nat, n: nat): nat
    requires k < n
  {
    if k + 1 == n then 0 else k + 1
  }

  /** The position before k in a cycle of length n. */
  function Prev(k: nat, n: nat): nat
    requires k < n
  {
    if k == 0 then n - 1 else k - 1
  }

  /** The writes of a branch, in source order: each corner gets the next one,
      the last gets the first. The written cells are the corners in order,
      each write's destination is the cell the following write assigns, and
      the last closes back on the first. */
  function CycleWrites(cs: seq<Cell>): (ws: seq<(Cell, Cell)>)
    ensures |ws| == |cs|
    ensures forall k :: 0 <= k < |cs| ==> ws[k].0 == cs[k]
    ensures forall k :: 0 <= k < |cs| - 1 ==> ws[k].1 == ws[k + 1].0
    ensures |cs| > 0 ==> ws[|cs| - 1].1 == ws[0].0
  {
    seq(|cs|, k requires 0 <= k < |cs| => (cs[k], cs[Next(k, |cs|)]))
  }

  /** The cells a list of writes assigns to, in order. */
  function Destinations(ws: seq<(Cell, Cell)>): (ds: seq<Cell>)
    ensures |ds| == |ws| && forall k :: 0 <= k < |ws| ==> ds[k] == ws[k].1
  {
    seq(|ws|, k requires 0 <= k < |ws| => ws[k].1)
  }

  /** The destinations of a cycle's writes are its corners rotated by one,
      so each corner is assigned to exactly as often as it is written. */
  lemma CycleWritesPermute(cs: seq<Cell>)
    ensures multiset(Destinations(CycleWrites(cs))) == multiset(cs)
  {
    var ds := Destinations(CycleWrites(cs));
    if |cs| > 0 {
      assert ds == cs[1..] + cs[..1];
      assert cs == cs[..1] + cs[1..];
    }
  }

  /** `_assigned_position[at.x][at.y] = to`. A column index off the board
      reads `undefined` and the assignment throws; a row index off the board
      sets a property that the grid scan never visits. */
  function Put(cols: int, g: Assignment, at: Cell, to: Cell): (o: Outcome)
    ensures o.Thrown? <==> !(0 <= at.x < cols)
    ensures o.Thrown? ==> o.grid == g
    ensures o.grid.Keys <= g.Keys + {at}
    ensures o.Done? && 0 <= at.y < cols ==> at in o.grid && o.grid[at] == to
  {
    if !(0 <= at.x < cols) then Thrown(g)
    else if 0 <= at.y < cols then Done(g[at := to])
    else Done(g)
  }

  /** Performs the writes in order, stopping at the first that throws. */
  function ApplyWrites(cols: int, g: Assignment, ws: seq<(Cell, Cell)>): (o: Outcome)
    ensures o.Done? <==> forall k :: 0 <= k < |ws| ==> 0 <= ws[k].0.x < cols
    decreases |ws|
  {
    if ws == [] then Done(g)
    else
      match Put(cols, g, ws[0].0, ws[0].1)
      case Thrown(h) => Thrown(h)
      case Done(h) => ApplyWrites(cols, h, ws[1..])
  }

  /** The corners `_make_pairs` writes, or none when it skips: the anchor's
      column is off the board, the anchor already holds an entry, or no
      direction was chosen. */
  function PlannedCorners(cols: int, g: Assignment, d: Draws): (cs: seq<Cell>)
    requires ValidDraws(d)
    ensures |cs| == 0 || |cs| == 4
  {
    var f := Anchor(cols, d);
    if !(0 <= f.x < cols) || f in g then []
    else
      match ChosenDirection(cols, f, d)
      case None => []
      case Some(dir) => Corners(f, dir, SideLength(cols, f, dir, d.side))
  }

  /** Every cell's column exists in a cols x cols grid. */
  predicate ColumnsOnBoard(cs: seq<Cell>, cols: int)
  {
    forall k :: 0 <= k < |cs| ==> 0 <= cs[k].x < cols
  }

  /** `_make_pairs`: its loop runs once. Reading the anchor's entry throws when
      the anchor's column is off the board; an assigned anchor ends the call
      (`continue`); otherwise the chosen branch writes its four entries. */
  function MakePairs(cols: int, g: Assignment, d: Draws): (o: Outcome)
    requires ValidDraws(d)
    ensures o.Done? <==> 0 <= Anchor(cols, d).x < cols && ColumnsOnBoard(PlannedCorners(cols, g, d), cols)
  {
    var f := Anchor(cols, d);
    if !(0 <= f.x < cols) then Thrown(g)
    else if f in g then Done(g)
    else
      match ChosenDirection(cols, f, d)
      case None => Done(g)
      case Some(dir) =>
        var cs := Corners(f, dir, SideLength(cols, f, dir, d.side));
        CycleWritesColumns(cols, g, cs);
        ApplyWrites(cols, g, CycleWrites(cs))
  }

  /** The writes of a cycle throw exactly when one of its corners lies in a
      column off the board. */
  lemma CycleWritesColumns(cols: int, g: Assignment, cs: seq<Cell>)
    ensures ApplyWrites(cols, g, CycleWrites(cs)).Done? <==> ColumnsOnBoard(cs, cols)
  {
    var ws := CycleWrites(cs);
    assert forall k :: 0 <= k < |ws| ==> ws[k].0 == cs[k];
  }

  /** `MakePairs` is the writes of `PlannedCorners`, after the anchor read. */
  lemma MakePairsIsPlannedWrites(cols: int, g: Assignment, d: Draws)
    requires ValidDraws(d)
    ensures var f := Anchor(cols, d);
            MakePairs(cols, g, d) ==
              if !(0 <= f.x < cols) then Thrown(g)
              else ApplyWrites(cols, g, CycleWrites(PlannedCorners(cols, g, d)))
  {
  }

  /** The value a grid cell reads as: its entry, or `undefined`. */
  function Lookup(g: Assignment, c: Cell): Option<Cell>
  {
    if c in g then Some(g[c]) else None
  }

  /** Writes reach only the cells they name, and only cells on the board. */
  lemma {:induction false} ApplyWritesFrame(cols: int, g: Assignment, ws: seq<(Cell, Cell)>)
    ensures var h := ApplyWrites(cols, g, ws).grid;
            forall c :: (forall k :: 0 <= k < |ws| ==> ws[k].0 != c) ==> Lookup(h, c) == Lookup(g, c)
    ensures WellFormed(g, cols) ==> WellFormed(ApplyWrites(cols, g, ws).grid, cols)
    decreases |ws|
  {
    if ws != [] {
      var p := Put(cols, g, ws[0].0, ws[0].1);
      if p.Done? {
        ApplyWritesFrame(cols, p.grid, ws[1..]);
        var h := ApplyWrites(cols, g, ws).grid;
        forall c | forall k :: 0 <= k < |ws| ==> ws[k].0 != c
          ensures Lookup(h, c) == Lookup(g, c)
        {
          assert ws[0].0 != c;
          assert forall k :: 0 <= k < |ws[1..]| ==> ws[1..][k].0 == ws[k + 1].0;
        }
      }
    }
  }

  /** `_make_pairs` changes at most the four cells of its cycle, keeps the
      grid on the board, and changes nothing when the anchor already holds an
      entry. */
  lemma MakePairsFrame(cols: int, g: Assignment, d: Draws)
    requires ValidDraws(d)
    ensures var h := MakePairs(cols, g, d).grid;
            forall c :: c !in PlannedCorners(cols, g, d) ==> Lookup(h, c) == Lookup(g, c)
    ensures WellFormed(g, cols) ==> WellFormed(MakePairs(cols, g, d).grid, cols)
    ensures Anchor(cols, d) in g && 0 <= Anchor(cols, d).x < cols ==> MakePairs(cols, g, d) == Done(g)
  {
    var cs := PlannedCorners(cols, g, d);
    var ws := CycleWrites(cs);
    ApplyWritesFrame(cols, g, ws);
    forall c | c !in cs
      ensures forall k :: 0 <= k < |ws| ==> ws[k].0 != c
    {
      forall k | 0 <= k < |ws|
        ensures ws[k].0 != c
      {
        assert ws[k].0 == cs[k];
      }
    }
  }

  /** The anchor leaves room for a square: for cols >= 2 a direction is
      always chosen, and directions 2 and 3 only where they point inwards. */
  lemma DirectionChosenOnBoard(cols: int, d: Draws)
    requires cols >= 2 && ValidDraws(d)
    ensures var f := Anchor(cols, d);
            var dir := ChosenDirection(cols, f, d);
            && dir.Some? && 0 <= dir.value < 4
            && (dir.value == 2 ==> f.x > 0)
            && (dir.value == 3 ==> f.y > 0)
  {
    var f := Anchor(cols, d);
    assert 0 in Directions(cols, f);
  }

  /** For directions 0 and 1, and for 2 and 3 when the anchor is off both
      axes, the side is at least 1 and the four corners are distinct board
      cells. */
  lemma CornersOnBoard(cols: int, f: Cell, dir: int, r: real)
    requires cols >= 2 && 0 <= f.x <= cols - 2 && 0 <= f.y <= cols - 2
    requires 0 <= dir < 4 && IsUnitDraw(r)
    requires dir >= 2 ==> Min(f.x, f.y) >= 1
    ensures SideLength(cols, f, dir, r) >= 1
    ensures var cs := Corners(f, dir, SideLength(cols, f, dir, r));
            && (forall k :: 0 <= k < 4 ==> InGrid(cs[k], cols))
            && (forall k, l :: 0 <= k < l < 4 ==> cs[k] != cs[l])
  {
  }

  /** When directions 2 or 3 are taken from an anchor on an axis, `max` is 0
      and `random_int(1, 0)` is 0 for every draw but 0, where it is 1. */
  lemma SideOnAxis(cols: int, f: Cell, dir: int, r: real)
    requires 2 <= dir < 4 && Min(f.x, f.y) == 0 && IsUnitDraw(r)
    ensures SideLength(cols, f, dir, r) == if r == 0.0 then 1 else 0
  {
  }

  /** Follows an entry, staying put on a cell without one. */
  function Follow(g: Assignment, c: Cell): Cell
  {
    if c in g then g[c] else c
  }

  /** `Follow` applied n times. */
  function Iterate(g: Assignment, c: Cell, n: nat): Cell
    decreases n
  {
    if n == 0 then c else Iterate(g, Follow(g, c), n - 1)
  }

  /** Four distinct board cells written as a cycle map each to the next,
      wherever the writes start from; nothing else changes. */
  lemma CycleWritesClosed(cols: int, g: Assignment, cs: seq<Cell>)
    requires |cs| == 4 && forall k :: 0 <= k < 4 ==> InGrid(cs[k], cols)
    ensures ApplyWrites(cols, g, CycleWrites(cs)) == Done(g[cs[0] := cs[1]][cs[1] := cs[2]][cs[2] := cs[3]][cs[3] := cs[0]])
  {
    var ws := CycleWrites(cs);
    var g1 := g[cs[0] := cs[1]];
    var g2 := g1[cs[1] := cs[2]];
    var g3 := g2[cs[2] := cs[3]];
    var g4 := g3[cs[3] := cs[0]];
    assert ApplyWrites(cols, g, ws) == ApplyWrites(cols, g1, ws[1..]);
    assert ApplyWrites(cols, g1, ws[1..]) == ApplyWrites(cols, g2, ws[2..]);
    assert ApplyWrites(cols, g2, ws[2..]) == ApplyWrites(cols, g3, ws[3..]);
    assert ApplyWrites(cols, g3, ws[3..]) == ApplyWrites(cols, g4, ws[4..]);
    assert ws[4..] == [];
  }

  /** When the four corners are distinct, each written corner maps to the
      next one. */
  lemma CycleEntries(g: Assignment, cs: seq<Cell>)
    requires |cs| == 4 && forall k, l :: 0 <= k < l < 4 ==> cs[k] != cs[l]
    ensures var h := g[cs[0] := cs[1]][cs[1] := cs[2]][cs[2] := cs[3]][cs[3] := cs[0]];
            forall k :: 0 <= k < 4 ==> cs[k] in h && h[cs[k]] == cs[Next(k, 4)]
  {
  }

  /** The anchor, repeated: what the four writes look like when the side is 0. */
  lemma SelfMapWrites(cols: int, g: Assignment, f: Cell)
    requires InGrid(f, cols)
    ensures ApplyWrites(cols, g, CycleWrites([f, f, f, f])) == Done(g[f := f])
  {
    CycleWritesClosed(cols, g, [f, f, f, f]);
    assert g[f := f][f := f][f := f][f := f] == g[f := f];
  }

  /** The entries are exactly one cycle through the distinct board cells cs:
      each maps to the next and the last to the first. An empty cs is the
      empty grid, a single cell a cell mapped to itself. */
  ghost predicate CycleOn(g: Assignment, cs: seq<Cell>, cols: int)
  {
    && (forall k :: 0 <= k < |cs| ==> InGrid(cs[k], cols))
    && (forall k, l :: 0 <= k < l < |cs| ==> cs[k] != cs[l])
    && (forall c :: c in g <==> c in cs)
    && (forall k :: 0 <= k < |cs| ==> g[cs[k]] == cs[Next(k, |cs|)])
  }

  /** The grid holds a single cycle of board cells (possibly empty), so its
      entries permute the cells that hold them. */
  ghost predicate SingleCycle(g: Assignment, cols: int)
  {
    exists cs :: CycleOn(g, cs, cols)
  }

  /** Scan order of `draw`'s grid scan: x outer, y inner. */
  predicate ScanBefore(a: Cell, b: Cell)
  {
    a.x < b.x || (a.x == b.x && a.y < b.y)
  }

  /** The grid scan can pair every entry: the call returned and no entry
      points off the board. */
  predicate Materializable(o: Outcome, cols: int)
  {
    o.Done? && forall c :: c in o.grid ==> InGrid(o.grid[c], cols)
  }

  /** An entry that points off the board comes before every other entry in
      scan order, so the scan stops there before pairing anything. */
  ghost predicate OffBoardEntryFirst(g: Assignment, cols: int)
  {
    forall b, c :: b in g && c in g && !InGrid(g[b], cols) ==> !ScanBefore(c, b)
  }

  /** For cols >= 2, from a cleared grid `_make_pairs` always chooses a
      direction. */
  lemma ClearedBranch(cols: int, d: Draws) returns (dir: int)
    requires cols >= 2 && ValidDraws(d)
    ensures 0 <= dir < 4
    ensures var f := Anchor(cols, d);
            && (dir == 2 ==> f.x > 0) && (dir == 3 ==> f.y > 0)
            && ChosenDirection(cols, f, d) == Some(dir)
  {
    DirectionChosenOnBoard(cols, d);
    dir := ChosenDirection(cols, Anchor(cols, d), d).value;
  }

  /** What a `_make_pairs` call on a cleared grid leaves: entries only on
      the board; a single cycle whenever the grid scan can pair it; a failing
      scan only after the side draw 0; and an off-board entry, if any, first
      in scan order. */
  ghost predicate ClearedFacts(o: Outcome, cols: int, side: real)
  {
    && WellFormed(o.grid, cols)
    && (Materializable(o, cols) ==> SingleCycle(o.grid, cols))
    && (!Materializable(o, cols) ==> side == 0.0)
    && (o.Done? ==> OffBoardEntryFirst(o.grid, cols))
  }

  /** From a cleared grid with a proper square, the grid is the 4-cycle. */
  lemma ClearedSquare(cols: int, d: Draws, dir: int)
    requires cols >= 2 && ValidDraws(d) && 0 <= dir < 4
    requires var f := Anchor(cols, d);
             && (dir >= 2 ==> Min(f.x, f.y) >= 1)
             && ChosenDirection(cols, f, d) == Some(dir)
    ensures ClearedFacts(MakePairs(cols, map[], d), cols, d.side)
  {
    var f := Anchor(cols, d);
    var cs := Corners(f, dir, SideLength(cols, f, dir, d.side));
    CornersOnBoard(cols, f, dir, d.side);
    CycleWritesClosed(cols, map[], cs);
    CycleEntries(map[], cs);
    var h := MakePairs(cols, map[], d).grid;
    forall c
      ensures c in h <==> c in cs
    {
      assert c in h <==> c == cs[0] || c == cs[1] || c == cs[2] || c == cs[3];
    }
    assert CycleOn(h, cs, cols);
  }

  /** From a cleared grid, an anchor on an axis taking direction 2 or 3 with
      a non-zero side draw maps itself to itself. */
  lemma ClearedSelfMap(cols: int, d: Draws, dir: int)
    requires cols >= 2 && ValidDraws(d) && 2 <= dir < 4 && d.side != 0.0
    requires var f := Anchor(cols, d);
             && Min(f.x, f.y) == 0
             && ChosenDirection(cols, f, d) == Some(dir)
    ensures MakePairs(cols, map[], d) == Done(map[Anchor(cols, d) := Anchor(cols, d)])
    ensures ClearedFacts(MakePairs(cols, map[], d), cols, d.side)
  {
    var f := Anchor(cols, d);
    SideOnAxis(cols, f, dir, d.side);
    assert Corners(f, dir, 0) == [f, f, f, f];
    SelfMapWrites(cols, map[], f);
    assert CycleOn(map[f := f], [f], cols);
  }

  /** From a cleared grid, an anchor on the top row taking direction 2 with
      the side draw 0 leaves two entries, the second pointing off the board. */
  lemma ClearedZeroDrawLeft(cols: int, d: Draws)
    requires cols >= 2 && ValidDraws(d) && d.side == 0.0
    requires var f := Anchor(cols, d);
             && f.y == 0 && f.x > 0
             && ChosenDirection(cols, f, d) == Some(2)
    ensures var f := Anchor(cols, d);
            var left := Cell(f.x - 1, 0);
            MakePairs(cols, map[], d) == Done(map[f := left][left := Cell(f.x - 1, -1)])
    ensures ClearedFacts(MakePairs(cols, map[], d), cols, d.side)
  {
    var f := Anchor(cols, d);
    SideOnAxis(cols, f, 2, d.side);
    var left := Cell(f.x - 1, 0);
    var cs := [f, left, Cell(f.x - 1, -1), Cell(f.x, -1)];
    assert Corners(f, 2, 1) == cs;
    var ws := CycleWrites(cs);
    var g1: Assignment := map[f := left];
    var g2 := g1[left := Cell(f.x - 1, -1)];
    assert ApplyWrites(cols, map[], ws) == ApplyWrites(cols, g1, ws[1..]);
    assert ApplyWrites(cols, g1, ws[1..]) == ApplyWrites(cols, g2, ws[2..]);
    assert ApplyWrites(cols, g2, ws[2..]) == ApplyWrites(cols, g2, ws[3..]);
    assert ApplyWrites(cols, g2, ws[3..]) == ApplyWrites(cols, g2, ws[4..]);
    assert ws[4..] == [];
    assert !InGrid(g2[left], cols);
  }

  /** From a cleared grid, an anchor on the left column taking direction 3
      with the side draw 0 throws at its third write, on column -1. */
  lemma ClearedZeroDrawTop(cols: int, d: Draws)
    requires cols >= 2 && ValidDraws(d) && d.side == 0.0
    requires var f := Anchor(cols, d);
             && f.x == 0 && f.y > 0
             && ChosenDirection(cols, f, d) == Some(3)
    ensures var f := Anchor(cols, d);
            var up := Cell(0, f.y - 1);
            MakePairs(cols, map[], d) == Thrown(map[f := up][up := Cell(-1, f.y - 1)])
    ensures ClearedFacts(MakePairs(cols, map[], d), cols, d.side)
  {
    var f := Anchor(cols, d);
    SideOnAxis(cols, f, 3, d.side);
    var up := Cell(0, f.y - 1);
    var cs := [f, up, Cell(-1, f.y - 1), Cell(-1, f.y)];
    assert Corners(f, 3, 1) == cs;
    var ws := CycleWrites(cs);
    var g1: Assignment := map[f := up];
    var g2 := g1[up := Cell(-1, f.y - 1)];
    assert ApplyWrites(cols, map[], ws) == ApplyWrites(cols, g1, ws[1..]);
    assert ApplyWrites(cols, g1, ws[1..]) == ApplyWrites(cols, g2, ws[2..]);
    assert ApplyWrites(cols, g2, ws[2..]) == Thrown(g2);
  }

  /** From a cleared grid, a `_make_pairs` that the grid scan can pair leaves
      a single cycle; the only other endings need the side draw to be exactly
      0 (an anchor on an axis taking direction 2 or 3), and then an off-board
      entry is the first the scan meets. */
  lemma MakePairsFromCleared(cols: int, d: Draws)
    requires cols >= 1 && ValidDraws(d)
    ensures var o := MakePairs(cols, map[], d);
            && WellFormed(o.grid, cols)
            && (Materializable(o, cols) ==> SingleCycle(o.grid, cols))
            && (!Materializable(o, cols) ==> d.side == 0.0)
            && (o.Done? ==> OffBoardEntryFirst(o.grid, cols))
  {
    var f := Anchor(cols, d);
    if cols == 1 {
      assert Directions(cols, f) == [];
      assert CycleOn(map[], [], cols);
    } else {
      var dir := ClearedBranch(cols, d);
      if dir < 2 || Min(f.x, f.y) >= 1 {
        ClearedSquare(cols, d, dir);
      } else if d.side != 0.0 {
        ClearedSelfMap(cols, d, dir);
      } else if dir == 2 {
        ClearedZeroDrawLeft(cols, d);
      } else {
        ClearedZeroDrawTop(cols, d);
      }
    }
  }

  /** Following entries that map corner k to corner k + 1 (mod 4) four times
      comes back to the start. */
  lemma FourStepsOnCycle(h: Assignment, cs: seq<Cell>, k: nat)
    requires |cs| == 4 && k < 4
    requires forall l :: 0 <= l < 4 ==> cs[l] in h && h[cs[l]] == cs[Next(l, 4)]
    ensures Iterate(h, cs[k], 4) == cs[k]
  {
    var k1 := Next(k, 4);
    var k2 := Next(k1, 4);
    var k3 := Next(k2, 4);
    assert Iterate(h, cs[k], 4) == Iterate(h, cs[k1], 3) == Iterate(h, cs[k2], 2) == Iterate(h, cs[k3], 1);
  }

  /** The draws make `_make_pairs` write a closed cycle: the side draw is not
      0, or the chosen direction is 0 or 1, or the anchor is off both axes.
      Only directions 2 and 3 from an anchor on an axis with the side draw 0
      write off the board. */
  predicate SquareDrawn(cols: int, d: Draws)
    requires ValidDraws(d)
  {
    var f := Anchor(cols, d);
    var dir := ChosenDirection(cols, f, d);
    || d.side != 0.0
    || (dir.Some? && dir.value < 2)
    || Min(f.x, f.y) >= 1
  }

  /** The corners `_make_pairs` writes from a free anchor, whenever the draws
      do not send them off the board, are board cells each mapped to the
      next. */
  lemma PlannedCycle(cols: int, g: Assignment, d: Draws) returns (cs: seq<Cell>)
    requires cols >= 2 && ValidDraws(d)
    requires Anchor(cols, d) !in g
    requires SquareDrawn(cols, d)
    ensures cs == PlannedCorners(cols, g, d) && |cs| == 4
    ensures MakePairs(cols, g, d).Done?
    ensures var h := MakePairs(cols, g, d).grid;
            forall k :: 0 <= k < 4 ==> InGrid(cs[k], cols) && cs[k] in h && h[cs[k]] == cs[Next(k, 4)]
  {
    var f := Anchor(cols, d);
    DirectionChosenOnBoard(cols, d);
    var dir := ChosenDirection(cols, f, d).value;
    cs := Corners(f, dir, SideLength(cols, f, dir, d.side));
    assert MakePairs(cols, g, d) == ApplyWrites(cols, g, CycleWrites(cs));
    SquareCycle(cols, g, f, dir, d.side);
  }

  /** From an anchor that leaves room, the writes of a square whose side is
      not sent off the board by the draw close a cycle of board cells. */
  lemma SquareCycle(cols: int, g: Assignment, f: Cell, dir: int, r: real)
    requires cols >= 2 && 0 <= f.x <= cols - 2 && 0 <= f.y <= cols - 2
    requires 0 <= dir < 4 && IsUnitDraw(r)
    requires (dir == 2 ==> f.x > 0) && (dir == 3 ==> f.y > 0)
    requires r != 0.0 || dir < 2 || Min(f.x, f.y) >= 1
    ensures var cs := Corners(f, dir, SideLength(cols, f, dir, r));
            var o := ApplyWrites(cols, g, CycleWrites(cs));
            && o.Done?
            && forall k :: 0 <= k < 4 ==> InGrid(cs[k], cols) && cs[k] in o.grid && o.grid[cs[k]] == cs[Next(k, 4)]
  {
    var cs := Corners(f, dir, SideLength(cols, f, dir, r));
    if dir >= 2 && Min(f.x, f.y) == 0 {
      SideOnAxis(cols, f, dir, r);
      assert cs == [f, f, f, f];
      CycleWritesClosed(cols, g, cs);
    } else {
      CornersOnBoard(cols, f, dir, r);
      CycleWritesClosed(cols, g, cs);
      CycleEntries(g, cs);
    }
  }

  /** The written entries form one closed cycle: from any written cell the
      entries lead back to it in four steps, and each entry's destination is
      itself a written cell. This holds whatever the grid held before, as
      long as the anchor was free and the draws keep the square on the
      board. */
  lemma FourStepsReturn(cols: int, g: Assignment, d: Draws)
    requires cols >= 2 && ValidDraws(d)
    requires Anchor(cols, d) !in g
    requires SquareDrawn(cols, d)
    ensures MakePairs(cols, g, d).Done?
    ensures var h := MakePairs(cols, g, d).grid;
            var cs := PlannedCorners(cols, g, d);
            && |cs| == 4
            && (forall k :: 0 <= k < 4 ==> InGrid(cs[k], cols) && cs[k] in h && h[cs[k]] in cs)
            && (forall k :: 0 <= k < 4 ==> Iterate(h, cs[k], 4) == cs[k])
  {
    var cs := PlannedCycle(cols, g, d);
    var h := MakePairs(cols, g, d).grid;
    forall k | 0 <= k < 4
      ensures h[cs[k]] in cs && Iterate(h, cs[k], 4) == cs[k]
    {
      assert h[cs[k]] == cs[Next(k, 4)];
      FourStepsOnCycle(h, cs, k);
    }
  }

  /** Each cell of a sequence followed through the entries. */
  function FollowAll(g: Assignment, cells: seq<Cell>): (out: seq<Cell>)
    ensures |out| == |cells|
    ensures forall i :: 0 <= i < |cells| ==> out[i] == Follow(g, cells[i])
  {
    seq(|cells|, i requires 0 <= i < |cells| => Follow(g, cells[i]))
  }

  /** Moving every circle along a single cycle keeps their cells a bijection
      onto the board. */
  lemma PermutationKeepsBijective(cells: seq<Cell>, g: Assignment, cols: int)
    requires Bijective(cells, cols) && SingleCycle(g, cols)
    ensures Bijective(FollowAll(g, cells), cols)
  {
    var cs :| CycleOn(g, cs, cols);
    var out := FollowAll(g, cells);
    forall i | 0 <= i < |out|
      ensures InGrid(out[i], cols)
    {
      FollowOnCycle(g, cs, cols, cells[i]);
    }
    forall i, j | 0 <= i < j < |out|
      ensures out[i] != out[j]
    {
      FollowInjective(g, cs, cols, cells[i], cells[j]);
    }
    forall c | InGrid(c, cols)
      ensures c in out
    {
      var p := FollowPreimage(g, cs, cols, c);
      var i :| 0 <= i < |cells| && cells[i] == p;
      assert out[i] == c;
    }
  }

  /** Following a cycle from a cell on it reaches the next cell on it. */
  lemma FollowOnCycle(g: Assignment, cs: seq<Cell>, cols: int, c: Cell)
    requires CycleOn(g, cs, cols)
    ensures c in g ==> exists k :: 0 <= k < |cs| && c == cs[k] && Follow(g, c) == cs[Next(k, |cs|)]
    ensures InGrid(c, cols) ==> InGrid(Follow(g, c), cols)
  {
    if c in g {
      var k :| 0 <= k < |cs| && c == cs[k];
    }
  }

  /** Following a cycle never merges two cells. */
  lemma FollowInjective(g: Assignment, cs: seq<Cell>, cols: int, a: Cell, b: Cell)
    requires CycleOn(g, cs, cols) && a != b
    ensures Follow(g, a) != Follow(g, b)
  {
    FollowOnCycle(g, cs, cols, a);
    FollowOnCycle(g, cs, cols, b);
  }

  /** Every board cell is reached by following a cycle from some board cell. */
  lemma FollowPreimage(g: Assignment, cs: seq<Cell>, cols: int, c: Cell) returns (p: Cell)
    requires CycleOn(g, cs, cols) && InGrid(c, cols)
    ensures InGrid(p, cols) && Follow(g, p) == c
  {
    if c in g {
      var k :| 0 <= k < |cs| && c == cs[k];
      var j := Prev(k, |cs|);
      p := cs[j];
      assert Next(j, |cs|) == k;
    } else {
      p := c;
    }
  }
}
