/**
 The synchronous rule of the Game of Life on a torus, and the neighbour
 arithmetic of the engine.
 */
module LifeRules {
  const WIDTH: nat := 1024
  const HEIGHT: nat := 1024
  const COUNT: nat := 0x10_0000

  type UInt16 = n: nat | n < 0x1_0000
  type UInt8 = n: nat | n < 0x100

  const TRAIL: UInt8 := 18

  datatype Rule = Conway | HighLife

  datatype Cell = Cell(age: UInt16, trail: UInt8)

  predicate Alive(c: Cell) {
    c.age != 0
  }

  function AliveMap(cells: seq<Cell>): (r: seq<bool>)
    ensures |r| == |cells| && forall i :: 0 <= i < |r| ==> r[i] == Alive(cells[i])
  {
    seq(|cells|, i requires 0 <= i < |cells| => Alive(cells[i]))
  }

  function Bit(alive: bool): UInt8 {
    if alive then 1 else 0
  }

  /* ---------- the torus ---------- */

  // The cell at any integer coordinates, wrapped around both ways.
  function At(x: int, y: int): (i: nat)
    ensures i < COUNT
  {
    (y % 1024) * 1024 + x % 1024
  }

  function Moore(): seq<(int, int)> {
    [(-1, -1), (0, -1), (1, -1), (-1, 0), (1, 0), (-1, 1), (0, 1), (1, 1)]
  }

  // How many of the cells at the given offsets are alive.
  function LiveAround(alive: seq<bool>, x: int, y: int, offsets: seq<(int, int)>): nat
    requires |alive| == COUNT
  {
    if offsets == [] then 0
    else (if alive[At(x + offsets[0].0, y + offsets[0].1)] then 1 else 0) + LiveAround(alive, x, y, offsets[1..])
  }

  function Neighbors(alive: seq<bool>, i: nat): nat
    requires |alive| == COUNT && i < COUNT
  {
    LiveAround(alive, i % 1024, i / 1024, Moore())
  }

  predicate Survives(alive: bool, rule: Rule, neighbors: nat) {
    if alive then neighbors == 2 || neighbors == 3
    else neighbors == 3 || (rule == HighLife && neighbors == 6)
  }

  function Next(alive: seq<bool>, rule: Rule, i: nat): bool
    requires |alive| == COUNT && i < COUNT
  {
    Survives(alive[i], rule, Neighbors(alive, i))
  }

  function NextMap(alive: seq<bool>, rule: Rule): (r: seq<bool>)
    requires |alive| == COUNT
    ensures |r| == COUNT && forall i :: 0 <= i < COUNT ==> r[i] == Next(alive, rule, i)
  {
    seq(COUNT, i requires 0 <= i < COUNT => Next(alive, rule, i))
  }

  // A cell once its next state is known: it grows older, or leaves a trail that fades.
  function Committed(c: Cell, next: bool): Cell {
    if next then Cell(if c.age < 0xffff then c.age + 1 else 0xffff, 0)
    else Cell(0, if Alive(c) then TRAIL else if c.trail == 0 then 0 else c.trail - 1)
  }

  function CommittedAll(cells: seq<Cell>, next: seq<bool>): (r: seq<Cell>)
    requires |cells| == |next|
    ensures |r| == |cells| && forall i :: 0 <= i < |r| ==> r[i] == Committed(cells[i], next[i])
  {
    seq(|cells|, i requires 0 <= i < |cells| => Committed(cells[i], next[i]))
  }

  // One generation of the whole board.
  function Generation(cells: seq<Cell>, rule: Rule): (r: seq<Cell>)
    requires |cells| == COUNT
    ensures |r| == COUNT
  {
    CommittedAll(cells, NextMap(AliveMap(cells), rule))
  }

  function Generations(cells: seq<Cell>, rule: Rule, n: nat): (r: seq<Cell>)
    requires |cells| == COUNT
    ensures |r| == COUNT
  {
    if n == 0 then cells else Generation(Generations(cells, rule, n - 1), rule)
  }

  /** A generation acts on living cells exactly as the rule says. */
  lemma GenerationIsSynchronous(cells: seq<Cell>, rule: Rule)
    requires |cells| == COUNT
    ensures AliveMap(Generation(cells, rule)) == NextMap(AliveMap(cells), rule)
  {
  }

  /* ---------- the engine's neighbour indexes ---------- */

  ghost predicate IsBoardOf(board: seq<UInt8>, alive: seq<bool>) {
    |board| == |alive| && forall i :: 0 <= i < |board| ==> board[i] == Bit(alive[i])
  }

  // Wrapping by comparison is arithmetic modulo the board's size.
  lemma WrappedCoordinates(x: nat, y: nat)
    requires x < WIDTH && y < HEIGHT
    ensures (x - 1) % 1024 == if x == 0 then WIDTH - 1 else x - 1
    ensures (x + 1) % 1024 == if x + 1 == WIDTH then 0 else x + 1
    ensures (y - 1) % 1024 == if y == 0 then HEIGHT - 1 else y - 1
    ensures (y + 1) % 1024 == if y + 1 == HEIGHT then 0 else y + 1
    ensures x % 1024 == x && y % 1024 == y
  {
  }

  lemma UnfoldMoore(alive: seq<bool>, x: int, y: int)
    requires |alive| == COUNT
    ensures LiveAround(alive, x, y, Moore()) ==
      Bit(alive[At(x - 1, y - 1)]) + Bit(alive[At(x, y - 1)]) + Bit(alive[At(x + 1, y - 1)])
      + Bit(alive[At(x - 1, y)]) + Bit(alive[At(x + 1, y)])
      + Bit(alive[At(x - 1, y + 1)]) + Bit(alive[At(x, y + 1)]) + Bit(alive[At(x + 1, y + 1)])
  {
    var m := Moore();
    assert LiveAround(alive, x, y, m) == Bit(alive[At(x - 1, y - 1)]) + LiveAround(alive, x, y, m[1..]);
    assert m[1..][1..] == m[2..] && m[2..][1..] == m[3..] && m[3..][1..] == m[4..] && m[4..][1..] == m[5..];
    assert m[5..][1..] == m[6..] && m[6..][1..] == m[7..] && m[7..][1..] == [];
    assert LiveAround(alive, x, y, m[1..]) == Bit(alive[At(x, y - 1)]) + LiveAround(alive, x, y, m[2..]);
    assert LiveAround(alive, x, y, m[2..]) == Bit(alive[At(x + 1, y - 1)]) + LiveAround(alive, x, y, m[3..]);
    assert LiveAround(alive, x, y, m[3..]) == Bit(alive[At(x - 1, y)]) + LiveAround(alive, x, y, m[4..]);
    assert LiveAround(alive, x, y, m[4..]) == Bit(alive[At(x + 1, y)]) + LiveAround(alive, x, y, m[5..]);
    assert LiveAround(alive, x, y, m[5..]) == Bit(alive[At(x - 1, y + 1)]) + LiveAround(alive, x, y, m[6..]);
    assert LiveAround(alive, x, y, m[6..]) == Bit(alive[At(x, y + 1)]) + LiveAround(alive, x, y, m[7..]);
    assert LiveAround(alive, x, y, m[7..]) == Bit(alive[At(x + 1, y + 1)]);
  }

  // The sum over the wrapped indexes.
  lemma SumAround(alive: seq<bool>, x: nat, y: nat, left: nat, right: nat, above: nat, row: nat, below: nat)
    requires |alive| == COUNT && x < WIDTH && y < HEIGHT
    requires left == (if x == 0 then WIDTH - 1 else x - 1) && right == (if x + 1 == WIDTH then 0 else x + 1)
    requires above == (if y == 0 then HEIGHT - 1 else y - 1) * WIDTH && row == y * WIDTH
    requires below == (if y + 1 == HEIGHT then 0 else y + 1) * WIDTH
    ensures above + WIDTH <= COUNT && row + WIDTH <= COUNT && below + WIDTH <= COUNT
    ensures LiveAround(alive, x, y, Moore()) ==
      Bit(alive[above + left]) + Bit(alive[above + x]) + Bit(alive[above + right]) + Bit(alive[row + left])
      + Bit(alive[row + right]) + Bit(alive[below + left]) + Bit(alive[below + x]) + Bit(alive[below + right])
  {
    WrappedCoordinates(x, y);
    UnfoldMoore(alive, x, y);
  }

  // The next state of cell i, read from the board snapshot.
  method EvolveCell(board: array<UInt8>, cell: Cell, rule: Rule, i: nat, ghost alive: seq<bool>) returns (next: bool)
    requires |alive| == COUNT && i < COUNT && IsBoardOf(board[..], alive) && alive[i] == Alive(cell)
    ensures next == Next(alive, rule, i)
  {
    var neighbors := CountNeighbors(board, i, alive);
    next := if cell.age != 0 then neighbors == 2 || neighbors == 3
            else neighbors == 3 || (rule == HighLife && neighbors == 6);
  }

  method CountNeighbors(board: array<UInt8>, i: nat, ghost alive: seq<bool>) returns (neighbors: UInt8)
    requires |alive| == COUNT && i < COUNT && IsBoardOf(board[..], alive)
    ensures neighbors == Neighbors(alive, i)
  {
    var x, y := i % WIDTH, i / WIDTH;
    var left := if x == 0 then WIDTH - 1 else x - 1;
    var right := if x + 1 == WIDTH then 0 else x + 1;
    var above := (if y == 0 then HEIGHT - 1 else y - 1) * WIDTH;
    var row := y * WIDTH;
    var below := (if y + 1 == HEIGHT then 0 else y + 1) * WIDTH;
    SumAround(alive, x, y, left, right, above, row, below);
    assert forall k :: 0 <= k < COUNT ==> board[k] == board[..][k];
    neighbors :=
      board[above + left] + board[above + x] + board[above + right] + board[row + left]
      + board[row + right] + board[below + left] + board[below + x] + board[below + right];
  }
}
