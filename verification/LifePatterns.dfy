/** Copies of a seed pattern on a regular lattice of the board. */
module LifePatterns {
  import opened LifeRules
  import opened Division

  type Pattern = seq<(nat, nat)>

  // A copy of the pattern every `step` cells, starting at (first, first); a
  // lattice point is used while `reach` columns and 3 rows fit beyond it.
  datatype Layout = Layout(first: nat, step: nat, reach: nat, pattern: Pattern)

  ghost predicate LayoutOk(l: Layout) {
    && l.step > 0
    && forall p :: p in l.pattern ==> p.0 < l.step && p.0 < l.reach && p.1 < l.step && p.1 < 3
  }

  // The lattice point nearest above and left of cell i, and i's offset from it.
  function Column(l: Layout, i: nat): nat
    requires l.step > 0 && i % 1024 >= l.first
  {
    (i % 1024 - l.first) / l.step
  }

  function Row(l: Layout, i: nat): nat
    requires l.step > 0 && i / 1024 >= l.first
  {
    (i / 1024 - l.first) / l.step
  }

  function Offset(l: Layout, i: nat): (nat, nat)
    requires l.step > 0 && i % 1024 >= l.first && i / 1024 >= l.first
  {
    ((i % 1024 - l.first) % l.step, (i / 1024 - l.first) % l.step)
  }

  predicate Inside(l: Layout, i: nat) {
    l.step > 0 && i % 1024 >= l.first && i / 1024 >= l.first
  }

  // Cell i belongs to a copy of the pattern.
  predicate Seeded(l: Layout, i: nat) {
    && Inside(l, i) && Offset(l, i) in l.pattern
    && l.first + l.step * Column(l, i) + l.reach < WIDTH && l.first + l.step * Row(l, i) + 3 < HEIGHT
  }

  // Seeded by the copies before lattice point (a, b), or by the first k cells of that copy.
  ghost predicate Placed(l: Layout, i: nat, a: nat, b: nat, k: nat)
    requires k <= |l.pattern|
  {
    && Seeded(l, i)
    && (|| Row(l, i) < b
        || (Row(l, i) == b && (Column(l, i) < a || (Column(l, i) == a && Offset(l, i) in l.pattern[..k]))))
  }

  // Where the k-th cell of copy (a, b) lies.
  lemma CopyCell(l: Layout, a: nat, b: nat, k: nat)
    requires LayoutOk(l) && k < |l.pattern|
    requires l.first + l.step * a + l.reach < WIDTH && l.first + l.step * b + 3 < HEIGHT
    ensures var p := l.pattern[k]; var x, y := l.first + l.step * a + p.0, l.first + l.step * b + p.1;
      && x < WIDTH && y < HEIGHT
      && var i := At(x, y); Inside(l, i) && Column(l, i) == a && Row(l, i) == b && Offset(l, i) == p && Seeded(l, i)
  {
    assert l.pattern[k] in l.pattern;
    CellOfCopy(l, a, b, l.pattern[k]);
  }

  // The cell at offset p of copy (a, b).
  lemma CellOfCopy(l: Layout, a: nat, b: nat, p: (nat, nat))
    requires p.0 < l.step && p.1 < l.step
    requires l.first + l.step * a + p.0 < WIDTH && l.first + l.step * b + p.1 < HEIGHT
    ensures var i := At(l.first + l.step * a + p.0, l.first + l.step * b + p.1);
      Inside(l, i) && Column(l, i) == a && Row(l, i) == b && Offset(l, i) == p
  {
    var x, y := l.first + l.step * a + p.0, l.first + l.step * b + p.1;
    AtParts(x, y);
    Divided(x - l.first, l.step, a, p.0);
    Divided(y - l.first, l.step, b, p.1);
    CellSplit(l, At(x, y), x - l.first, y - l.first);
  }

  // A cell u columns and v rows from the first lattice point.
  lemma CellSplit(l: Layout, i: nat, u: nat, v: nat)
    requires l.step > 0 && i % 1024 == l.first + u && i / 1024 == l.first + v
    ensures Inside(l, i) && Column(l, i) == u / l.step && Row(l, i) == v / l.step
    ensures Offset(l, i) == (u % l.step, v % l.step)
  {
  }

  lemma AtParts(x: nat, y: nat)
    requires x < WIDTH && y < HEIGHT
    ensures At(x, y) % 1024 == x && At(x, y) / 1024 == y
  {
  }

  // A cell is determined by its copy and its offset.
  lemma SameCell(l: Layout, i: nat, j: nat)
    requires i < COUNT && j < COUNT && Inside(l, i) && Inside(l, j)
    requires Column(l, i) == Column(l, j) && Row(l, i) == Row(l, j) && Offset(l, i) == Offset(l, j)
    ensures i == j
  {
    SameQuotient(i % 1024 - l.first, j % 1024 - l.first, l.step);
    SameQuotient(i / 1024 - l.first, j / 1024 - l.first, l.step);
    SameQuotient(i, j, 1024);
  }

  lemma PlaceOne(l: Layout, a: nat, b: nat, k: nat, i: nat)
    requires LayoutOk(l) && k < |l.pattern| && i < COUNT
    requires l.first + l.step * a + l.reach < WIDTH && l.first + l.step * b + 3 < HEIGHT
    ensures var p := l.pattern[k];
      Placed(l, i, a, b, k + 1) <==>
        Placed(l, i, a, b, k) || i == At(l.first + l.step * a + p.0, l.first + l.step * b + p.1)
  {
    var p := l.pattern[k];
    var j := At(l.first + l.step * a + p.0, l.first + l.step * b + p.1);
    CopyCell(l, a, b, k);
    assert l.pattern[..k + 1] == l.pattern[..k] + [p];
    if Placed(l, i, a, b, k + 1) && !Placed(l, i, a, b, k) {
      SameCell(l, i, j);
    }
  }

  lemma CopyDone(l: Layout, a: nat, b: nat, i: nat)
    ensures Placed(l, i, a, b, |l.pattern|) <==> Placed(l, i, a + 1, b, 0)
  {
    assert l.pattern[..|l.pattern|] == l.pattern;
  }

  lemma RowDone(l: Layout, a: nat, b: nat, i: nat)
    requires l.first + l.step * a + l.reach >= WIDTH
    ensures Placed(l, i, a, b, 0) <==> Placed(l, i, 0, b + 1, 0)
  {
    if Placed(l, i, 0, b + 1, 0) && Row(l, i) == b {
      SmallerFactor(l.step, Column(l, i), a);
    }
  }

  lemma FieldDone(l: Layout, b: nat, i: nat)
    requires l.first + l.step * b + 3 >= HEIGHT
    ensures Placed(l, i, 0, b, 0) <==> Seeded(l, i)
  {
    if Seeded(l, i) {
      SmallerFactor(l.step, Row(l, i), b);
    }
  }

  /* ---------- the two fields ---------- */

  const GLIDERS: Layout := Layout(8, 32, 3, [(1, 0), (2, 1), (0, 2), (1, 2), (2, 2)])

  const ACORNS: Layout := Layout(24, 64, 7, [(1, 0), (3, 1), (0, 2), (1, 2), (4, 2), (5, 2), (6, 2)])

  predicate OfGlider(x: nat, y: nat) {
    (x, y) in {(9, 8), (10, 9), (8, 10), (9, 10), (10, 10)}
  }

  // The lattice reaches the whole board, so a cell's place in its square decides.
  lemma GlidersAre(i: nat)
    requires i < COUNT
    ensures Seeded(GLIDERS, i) <==> OfGlider(i % 32, i / 1024 % 32)
  {
    SquareOf(i % 1024, 8, 32);
    SquareOf(i / 1024, 8, 32);
    assert i % 32 == i % 1024 % 32;
  }

  predicate OfAcorn(x: nat, y: nat) {
    (x, y) in {(25, 24), (27, 25), (24, 26), (25, 26), (28, 26), (29, 26), (30, 26)}
  }

  lemma AcornsAre(i: nat)
    requires i < COUNT
    ensures Seeded(ACORNS, i) <==> OfAcorn(i % 64, i / 1024 % 64)
  {
    SquareOf(i % 1024, 24, 64);
    SquareOf(i / 1024, 24, 64);
    assert i % 64 == i % 1024 % 64;
  }

  lemma SquareOf(x: nat, first: nat, step: nat)
    requires x < 1024 && (step == 32 || step == 64) && first < step
    ensures x >= first ==> (x - first) % step == if x % step >= first then x % step - first
                                                 else x % step + step - first
    ensures x % step >= first ==> x >= first && first + step * ((x - first) / step) == x - (x % step - first)
    ensures x - x % step + step <= 1024
  {
  }
}
