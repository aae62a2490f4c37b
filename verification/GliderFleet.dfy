/** The glider fleet glides: every four generations move it one cell down the diagonal. */
module GliderFleet {
  import opened LifeRules
  import opened LifePatterns

  // The columns of a glider in row y of its 32 by 32 square, in each of its four
  // shapes; the fifth is the first one moved.
  function Columns(k: nat, y: int): set<int> {
    if k == 0 then if y == 8 then {9} else if y == 9 then {10} else if y == 10 then {8, 9, 10} else {}
    else if k == 1 then if y == 9 then {8, 10} else if y == 10 then {9, 10} else if y == 11 then {9} else {}
    else if k == 2 then if y == 9 then {10} else if y == 10 then {8, 10} else if y == 11 then {9, 10} else {}
    else if k == 3 then if y == 9 then {9} else if y == 10 then {10, 11} else if y == 11 then {9, 10} else {}
    else if y == 9 then {10} else if y == 10 then {11} else if y == 11 then {9, 10, 11} else {}
  }

  predicate Shape(k: nat, x: int, y: int) {
    x in Columns(k, y)
  }

  function One(k: nat, x: int, y: int): nat {
    if Shape(k, x % 32, y % 32) then 1 else 0
  }

  function Around(k: nat, x: int, y: int): nat {
    One(k, x - 1, y - 1) + One(k, x, y - 1) + One(k, x + 1, y - 1)
    + One(k, x - 1, y) + One(k, x + 1, y)
    + One(k, x - 1, y + 1) + One(k, x, y + 1) + One(k, x + 1, y + 1)
  }

  // Far from the glider nothing lives.
  lemma FarRow(k: nat, x: int, y: int)
    requires k < 4 && 0 <= x < 32 && -1 <= y <= 32 && (x < 7 || x > 12 || y < 8 || y > 11)
    ensures One(k, x - 1, y) == One(k, x, y) == One(k, x + 1, y) == 0
  {
  }

  lemma Nothing(k: nat, x: int, y: int)
    requires k < 4 && 0 <= x < 32 && 0 <= y < 32 && (x < 7 || x > 12 || y < 7 || y > 12)
    ensures Around(k, x, y) == 0 && !Shape(k, x, y) && !Shape(k + 1, x, y)
  {
    FarRow(k, x, y - 1);
    FarRow(k, x, y);
    FarRow(k, x, y + 1);
  }

  // How many of columns x - 1, x and x + 1 are in the set.
  function Near(columns: set<int>, x: int): nat {
    (if x - 1 in columns then 1 else 0) + (if x in columns then 1 else 0) + (if x + 1 in columns then 1 else 0)
  }

  lemma NearRow(k: nat, x: int, y: int)
    requires k < 4 && 7 <= x <= 12 && 6 <= y <= 13
    ensures One(k, x - 1, y) + One(k, x, y) + One(k, x + 1, y) == Near(Columns(k, y), x)
  {
  }

  lemma AroundRows(k: nat, x: int, y: int)
    requires k < 4 && 7 <= x <= 12 && 7 <= y <= 12
    ensures Around(k, x, y) + (if Shape(k, x, y) then 1 else 0) ==
            Near(Columns(k, y - 1), x) + Near(Columns(k, y), x) + Near(Columns(k, y + 1), x)
  {
    NearRow(k, x, y - 1);
    NearRow(k, x, y);
    NearRow(k, x, y + 1);
  }

  predicate Good(k: nat, x: int, y: int) {
    var n := Near(Columns(k, y - 1), x) + Near(Columns(k, y), x) + Near(Columns(k, y + 1), x);
    if Shape(k, x, y) then Shape(k + 1, x, y) <==> n == 3 || n == 4
    else n != 6 && (Shape(k + 1, x, y) <==> n == 3)
  }

  lemma Inside0(x: int, y: int)
    requires 7 <= x <= 12 && 7 <= y <= 12
    ensures Good(0, x, y)
  {
  }

  lemma Inside1(x: int, y: int)
    requires 7 <= x <= 12 && 7 <= y <= 12
    ensures Good(1, x, y)
  {
  }

  lemma Inside2(x: int, y: int)
    requires 7 <= x <= 12 && 7 <= y <= 12
    ensures Good(2, x, y)
  {
  }

  lemma Inside3(x: int, y: int)
    requires 7 <= x <= 12 && 7 <= y <= 12
    ensures Good(3, x, y)
  {
  }

  // One generation takes each shape to the next, under both rules.
  lemma ShapeSteps(k: nat, rule: Rule, x: int, y: int)
    requires k < 4 && 0 <= x < 32 && 0 <= y < 32
    ensures Survives(Shape(k, x, y), rule, Around(k, x, y)) == Shape(k + 1, x, y)
  {
    if x < 7 || x > 12 || y < 7 || y > 12 {
      Nothing(k, x, y);
    } else {
      AroundRows(k, x, y);
      match k
      case 0 => Inside0(x, y);
      case 1 => Inside1(x, y);
      case 2 => Inside2(x, y);
      case _ => Inside3(x, y);
    }
  }

  // The living cells are those of shape k in every square, moved by (dx, dy).
  function FleetMap(k: nat, dx: int, dy: int): (r: seq<bool>)
    ensures |r| == COUNT
  {
    seq(COUNT, i requires 0 <= i < COUNT => Shape(k, (i % 1024 - dx) % 32, (i / 1024 - dy) % 32))
  }

  lemma MapAt(k: nat, dx: int, dy: int, i: nat)
    requires i < COUNT
    ensures FleetMap(k, dx, dy)[i] == Shape(k, (i % 1024 - dx) % 32, (i / 1024 - dy) % 32)
  {
  }

  lemma FleetAt(k: nat, dx: int, dy: int, x: int, y: int)
    ensures Bit(FleetMap(k, dx, dy)[At(x, y)]) == One(k, x - dx, y - dy)
  {
    SameSquare(x, dx);
    SameSquare(y, dy);
    assert At(x, y) % 1024 == x % 1024 && At(x, y) / 1024 == y % 1024;
  }

  lemma SameSquare(x: int, d: int)
    ensures (x % 1024 - d) % 32 == (x - d) % 32
  {
    assert (x - x % 1024) % 32 == 0;
  }

  lemma FleetAround(k: nat, dx: int, dy: int, x: int, y: int)
    ensures LiveAround(FleetMap(k, dx, dy), x, y, Moore()) == Around(k, x - dx, y - dy)
  {
    UnfoldMoore(FleetMap(k, dx, dy), x, y);
    FleetRow(k, dx, dy, x, y - 1);
    FleetRow(k, dx, dy, x, y);
    FleetRow(k, dx, dy, x, y + 1);
    assert y - 1 - dy == y - dy - 1 && y + 1 - dy == y - dy + 1;
  }

  lemma FleetRow(k: nat, dx: int, dy: int, x: int, y: int)
    ensures Bit(FleetMap(k, dx, dy)[At(x - 1, y)]) == One(k, x - dx - 1, y - dy)
    ensures Bit(FleetMap(k, dx, dy)[At(x, y)]) == One(k, x - dx, y - dy)
    ensures Bit(FleetMap(k, dx, dy)[At(x + 1, y)]) == One(k, x - dx + 1, y - dy)
  {
    FleetAt(k, dx, dy, x - 1, y);
    FleetAt(k, dx, dy, x, y);
    FleetAt(k, dx, dy, x + 1, y);
    assert x - 1 - dx == x - dx - 1 && x + 1 - dx == x - dx + 1;
  }

  lemma AroundWraps(k: nat, x: int, y: int)
    ensures Around(k, x, y) == Around(k, x % 32, y % 32)
  {
    Wraps(x);
    Wraps(y);
  }

  lemma Wraps(x: int)
    ensures (x % 32 - 1) % 32 == (x - 1) % 32 && (x % 32) % 32 == x % 32 && (x % 32 + 1) % 32 == (x + 1) % 32
  {
    WrapsBy(x, -1);
    WrapsBy(x, 1);
  }

  lemma WrapsBy(x: int, a: int)
    ensures (x % 32 + a) % 32 == (x + a) % 32
  {
  }

  lemma NeighborsOf(k: nat, dx: int, dy: int, i: nat)
    requires i < COUNT
    ensures Neighbors(FleetMap(k, dx, dy), i) == Around(k, (i % 1024 - dx) % 32, (i / 1024 - dy) % 32)
  {
    FleetAround(k, dx, dy, i % 1024, i / 1024);
    AroundWraps(k, i % 1024 - dx, i / 1024 - dy);
  }

  lemma CellSteps(k: nat, dx: int, dy: int, rule: Rule, i: nat)
    requires k < 4 && i < COUNT
    ensures Next(FleetMap(k, dx, dy), rule, i) == FleetMap(k + 1, dx, dy)[i]
  {
    NeighborsOf(k, dx, dy, i);
    ShapeSteps(k, rule, (i % 1024 - dx) % 32, (i / 1024 - dy) % 32);
    MapAt(k, dx, dy, i);
    MapAt(k + 1, dx, dy, i);
  }

  lemma FleetSteps(k: nat, dx: int, dy: int, rule: Rule)
    requires k < 4
    ensures NextMap(FleetMap(k, dx, dy), rule) == FleetMap(k + 1, dx, dy)
  {
    forall i | 0 <= i < COUNT
      ensures NextMap(FleetMap(k, dx, dy), rule)[i] == FleetMap(k + 1, dx, dy)[i]
    {
      CellSteps(k, dx, dy, rule, i);
    }
  }

  lemma FleetMoved(dx: int, dy: int)
    ensures FleetMap(4, dx, dy) == FleetMap(0, dx + 1, dy + 1)
  {
    forall i | 0 <= i < COUNT
      ensures FleetMap(4, dx, dy)[i] == FleetMap(0, dx + 1, dy + 1)[i]
    {
      Wraps(i % 1024 - dx);
      Wraps(i / 1024 - dy);
      ShapeMoved((i % 1024 - dx) % 32, (i / 1024 - dy) % 32);
    }
  }

  lemma ShapeMoved(x: nat, y: nat)
    requires x < 32 && y < 32
    ensures Shape(4, x, y) == Shape(0, (x - 1) % 32, (y - 1) % 32)
  {
  }

  lemma {:induction false} FleetAfter(cells: seq<Cell>, rule: Rule, m: nat)
    requires |cells| == COUNT && AliveMap(cells) == FleetMap(0, 0, 0)
    ensures AliveMap(Generations(cells, rule, m)) == FleetMap(m % 4, m / 4, m / 4)
  {
    if m == 0 {
      assert Generations(cells, rule, m) == cells && m % 4 == 0 && m / 4 == 0;
    } else {
      FleetAfter(cells, rule, m - 1);
      MapAfter(cells, rule, m);
      MapSteps(rule, m);
    }
  }

  lemma MapAfter(cells: seq<Cell>, rule: Rule, m: nat)
    requires |cells| == COUNT && m > 0
    ensures AliveMap(Generations(cells, rule, m)) == NextMap(AliveMap(Generations(cells, rule, m - 1)), rule)
  {
    GenerationIsSynchronous(Generations(cells, rule, m - 1), rule);
  }

  lemma MapSteps(rule: Rule, m: nat)
    requires m > 0
    ensures NextMap(FleetMap((m - 1) % 4, (m - 1) / 4, (m - 1) / 4), rule) == FleetMap(m % 4, m / 4, m / 4)
  {
    var k, d := (m - 1) % 4, (m - 1) / 4;
    Fourths(m);
    FleetSteps(k, d, d, rule);
    if k == 3 {
      FleetMoved(d, d);
    }
  }

  lemma Fourths(m: nat)
    requires m > 0
    ensures (m - 1) % 4 == 3 ==> m % 4 == 0 && m / 4 == (m - 1) / 4 + 1
    ensures (m - 1) % 4 < 3 ==> m % 4 == (m - 1) % 4 + 1 && m / 4 == (m - 1) / 4
  {
  }

  /** From the fleet as it is loaded, 4n generations move every glider n cells to
      the right and n down, around the torus, under either rule. */
  lemma GlidersGlide(cells: seq<Cell>, rule: Rule, n: nat)
    requires |cells| == COUNT
    requires forall i :: 0 <= i < COUNT ==> (cells[i].age != 0) == OfGlider(i % 32, i / 1024 % 32)
    ensures forall i :: 0 <= i < COUNT ==>
      (Generations(cells, rule, 4 * n)[i].age != 0) == OfGlider((i % 1024 - n) % 32, (i / 1024 - n) % 32)
  {
    forall i | 0 <= i < COUNT
      ensures AliveMap(cells)[i] == FleetMap(0, 0, 0)[i]
    {
      MapAt(0, 0, 0, i);
      assert i % 1024 % 32 == i % 32;
      ShapeIsGlider(i % 32, i / 1024 % 32);
    }
    FleetAfter(cells, rule, 4 * n);
    assert (4 * n) / 4 == n && (4 * n) % 4 == 0;
    var after := Generations(cells, rule, 4 * n);
    forall i | 0 <= i < COUNT
      ensures (after[i].age != 0) == OfGlider((i % 1024 - n) % 32, (i / 1024 - n) % 32)
    {
      ShapeIsGlider((i % 1024 - n) % 32, (i / 1024 - n) % 32);
      MapAt(0, n, n, i);
    }
  }

  lemma ShapeIsGlider(x: nat, y: nat)
    ensures Shape(0, x, y) == OfGlider(x, y)
  {
  }
}
