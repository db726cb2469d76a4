/** Grid coordinates of the sketch: cells of the cols x cols board, the
    index <-> cell mapping used by `setup`, and `find_neighbours`. */
module Grid {

  /** A coordinate pair. It names a board cell when `InGrid` holds; the
      pairing code can also produce pairs that fall off the board. */
  datatype Cell = Cell(x: int, y: int)

  predicate InGrid(c: Cell, cols: int)
  {
    0 <= c.x < cols && 0 <= c.y < cols
  }

  function Abs(n: int): nat
  {
    if n < 0 then -n else n
  }

  function Min(a: int, b: int): int
  {
    if a <= b then a else b
  }

  function Max(a: int, b: int): int
  {
    if a <= b then b else a
  }

  /** `xy_from_index`: x is the remainder and y the quotient of i by the width.
      For a non-negative i and a width up to 10^6, JavaScript's `%` and
      `parseInt(i / width)` agree with Dafny's Euclidean `%` and `/`; for a
      wider board a quotient below 10^-6 prints in exponent notation and
      `parseInt` reads its leading digit instead. */
  function XyFromIndex(i: nat, width: nat): (c: Cell)
    requires width > 0
    ensures 0 <= c.x < width && 0 <= c.y
    ensures c.y * width + c.x == i
    ensures i < width * width ==> c.y < width
  {
    var c := Cell(i % width, i / width);
    if i < width * width then QuotientBelow(c.y, c.x, width); c
    else c
  }

  /** Multiplying by a natural number keeps the order of its factors. */
  lemma {:induction false} MulMonoInt(a: int, b: int, w: nat)
    ensures a <= b ==> a * w <= b * w
  {
    if w > 0 {
      MulMonoInt(a, b, w - 1);
      assert a * w == a * (w - 1) + a && b * w == b * (w - 1) + b;
    }
  }

  lemma QuotientBelow(q: int, r: int, w: nat)
    requires 0 <= q && 0 <= r < w && q * w + r < w * w
    ensures q < w
  {
    MulMonoInt(w, q, w);
  }

  /** Division by a positive width has one quotient and one remainder. */
  lemma DivisionUnique(q: int, r: int, q': int, r': int, w: nat)
    requires w > 0 && 0 <= r < w && 0 <= r' < w
    ensures q * w + r == q' * w + r' ==> q == q' && r == r'
  {
    MulMonoInt(q + 1, q', w);
    MulMonoInt(q' + 1, q, w);
    assert (q + 1) * w == q * w + w && (q' + 1) * w == q' * w + w;
  }

  /** The cell of an index is inverted by `y * width + x`, both ways round. */
  lemma IndexRoundTrip(x: int, y: int, width: nat)
    requires width > 0 && 0 <= x < width && 0 <= y
    ensures y * width + x >= 0
    ensures XyFromIndex(y * width + x, width) == Cell(x, y)
  {
    var i := y * width + x;
    var c := XyFromIndex(i, width);
    DivisionUnique(c.y, c.x, y, x, width);
  }

  /** The start cells `setup` gives its circles, in creation order. */
  function SetupCells(cols: nat): (cells: seq<Cell>)
    ensures |cells| == cols * cols
    ensures forall i :: 0 <= i < |cells| ==> InGrid(cells[i], cols) && cells[i].y * cols + cells[i].x == i
  {
    if cols == 0 then [] else seq(cols * cols, i requires 0 <= i < cols * cols => XyFromIndex(i, cols))
  }

  /** Every element is a board cell, no cell occurs twice and every board
      cell occurs: the sequence is a bijection from positions onto the board. */
  ghost predicate Bijective(cells: seq<Cell>, cols: int)
  {
    && (forall i :: 0 <= i < |cells| ==> InGrid(cells[i], cols))
    && (forall i, j :: 0 <= i < j < |cells| ==> cells[i] != cells[j])
    && (forall c :: InGrid(c, cols) ==> c in cells)
  }

  /** `setup`'s cells cover the board, each cell exactly once. */
  lemma SetupCellsBijective(cols: nat)
    ensures Bijective(SetupCells(cols), cols)
  {
    var cells := SetupCells(cols);
    if cols > 0 {
      forall i, j | 0 <= i < j < |cells|
        ensures cells[i] != cells[j]
      {
        var a, b := cells[i], cells[j];
        DivisionUnique(a.y, a.x, b.y, b.x, cols);
      }
      forall c | InGrid(c, cols)
        ensures c in cells
      {
        IndexRoundTrip(c.x, c.y, cols);
        var i := c.y * cols + c.x;
        MulMonoInt(c.y, cols - 1, cols);
        assert (cols - 1) * cols + cols == cols * cols;
        assert cells[i] == c;
      }
    }
  }

  /** A neighbour entry of `find_neighbours`: a cell and the direction code
      of its displacement (0 right, 1 bottom, 2 left, 3 top). */
  datatype Neighbour = Neighbour(x: int, y: int, dir: int)

  /** The unit displacement of a direction code. */
  function Offset(dir: int): Cell
  {
    match dir
    case 0 => Cell(1, 0)
    case 1 => Cell(0, 1)
    case 2 => Cell(-1, 0)
    case _ => Cell(0, -1)
  }

  /** `find_neighbours(x, y, size)`: left, right, top and bottom, in that
      order, each kept only when it stays on the board on its axis. */
  function FindNeighbours(x: int, y: int, size: int): (ns: seq<Neighbour>)
    ensures |ns| <= 4
    ensures forall k :: 0 <= k < |ns| ==>
              && 0 <= ns[k].dir < 4
              && ns[k].x == x + Offset(ns[k].dir).x
              && ns[k].y == y + Offset(ns[k].dir).y
              && Abs(ns[k].x - x) + Abs(ns[k].y - y) == 1
    ensures forall k, l :: 0 <= k < l < |ns| ==> ns[k].dir != ns[l].dir
    ensures InGrid(Cell(x, y), size) ==>
              forall k :: 0 <= k < |ns| ==> InGrid(Cell(ns[k].x, ns[k].y), size)
    ensures forall dir :: 0 <= dir < 4 && InGrid(Cell(x + Offset(dir).x, y + Offset(dir).y), size) ==>
              Neighbour(x + Offset(dir).x, y + Offset(dir).y, dir) in ns
  {
    (if x > 0 then [Neighbour(x - 1, y, 2)] else [])
    + (if x < size - 1 then [Neighbour(x + 1, y, 0)] else [])
    + (if y > 0 then [Neighbour(x, y - 1, 3)] else [])
    + (if y < size - 1 then [Neighbour(x, y + 1, 1)] else [])
  }
}
