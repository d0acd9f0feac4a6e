/**
  The playing field: a square grid of `Size` x `Size` cells, positions on it, the four
  direction keys and the occupancy facts the placement loops rely on.
 */
module Board {

  /** Number of cells along each side of the board. */
  const Size: int := 20

  /** Number of cells on the board. */
  const Area: int := Size * Size

  /** A cell, or a direction vector when used as a step. */
  datatype Pos = Pos(x: int, y: int)

  /** Holds when `p` is a cell of the board. */
  predicate InBounds(p: Pos) {
    0 <= p.x < Size && 0 <= p.y < Size
  }

  /** The cell reached from `p` by one step `d`. */
  function Add(p: Pos, d: Pos): Pos {
    Pos(p.x + d.x, p.y + d.y)
  }

  /** The four direction keys (arrows or W/A/S/D). */
  datatype Key = Up | Down | Left | Right

  /** The step vector of a key; the y axis points down the screen. */
  function KeyVector(k: Key): (v: Pos)
    ensures IsUnit(v)
  {
    match k
    case Up => Pos(0, -1)
    case Down => Pos(0, 1)
    case Left => Pos(-1, 0)
    case Right => Pos(1, 0)
  }

  /** A step of length one along either axis. */
  predicate IsUnit(d: Pos) {
    d in {Pos(0, -1), Pos(0, 1), Pos(-1, 0), Pos(1, 0)}
  }

  /** The opposite vector. */
  function Neg(d: Pos): Pos {
    Pos(-d.x, -d.y)
  }

  /** No cell occurs twice in `s`. */
  predicate NoRepeats(s: seq<Pos>) {
    forall i, j :: 0 <= i < j < |s| ==> s[i] != s[j]
  }

  /** The set of cells of a sequence; it has at most as many members as the sequence. */
  function CellsOf(s: seq<Pos>): (r: set<Pos>)
    ensures forall p :: p in r <==> p in s
    ensures |r| <= |s|
  {
    if s == [] then {} else {s[0]} + CellsOf(s[1..])
  }

  /** Row-major index of a cell. */
  function IndexOf(p: Pos): int {
    p.y * Size + p.x
  }

  /** The cell with row-major index `i`. */
  function CellAt(i: int): (p: Pos)
    requires 0 <= i < Area
    ensures InBounds(p) && IndexOf(p) == i
  {
    Pos(i % Size, i / Size)
  }

  /** The first `n` cells of the board in row-major order; there are exactly `n` of them. */
  function CellsBelow(n: nat): (r: set<Pos>)
    requires n <= Area
    ensures |r| == n
    ensures forall p :: p in r ==> InBounds(p) && 0 <= IndexOf(p) < n
  {
    if n == 0 then {} else CellsBelow(n - 1) + {CellAt(n - 1)}
  }

  /**
    Pigeonhole: when fewer than `Area` cells are taken, some cell of the board is free, so a
    rejection loop that draws cells until it finds a free one has a cell to stop at.
   */
  lemma FreeCellExists(taken: set<Pos>)
    requires |taken| < Area
    ensures exists p :: InBounds(p) && p !in taken
  {
    var all := CellsBelow(Area);
    var free := all - taken;
    assert taken == (all * taken) + (taken - all);
    assert |all * taken| <= |taken|;
    assert |free| == |all| - |all * taken|;
    var p :| p in free;
    assert InBounds(p) && p !in taken;
  }
}
