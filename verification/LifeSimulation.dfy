/** The Game of Life engine, updated in place under any schedule of its systems. */
module LifeSimulation {
  import opened LifeRules
  import opened LifeCommit
  import opened LifePixels
  import opened LifePatterns

  // The orders in which the engine runs one fixed step.
  datatype Orders = Orders(evolve: seq<nat>, commit: seq<nat>)

  ghost predicate OrdersOk(o: Orders) {
    Runs(o.evolve, COUNT, 1) && Runs(o.commit, COUNT, 3)
  }

  predicate CellOk(c: Cell) {
    c.trail <= TRAIL && (Alive(c) ==> c.trail == 0)
  }

  ghost predicate CellsOk(cells: seq<Cell>) {
    forall i :: 0 <= i < |cells| ==> CellOk(cells[i])
  }

  lemma GenerationKeepsCells(cells: seq<Cell>, rule: Rule)
    requires |cells| == COUNT && CellsOk(cells)
    ensures CellsOk(Generation(cells, rule))
  {
  }

  // A board seeded up to some point: the rest is dead, and there are no trails.
  ghost predicate SeededUpTo(cells: seq<Cell>, l: Layout, a: nat, b: nat, k: nat)
    requires k <= |l.pattern|
  {
    && |cells| == COUNT
    && forall i :: 0 <= i < COUNT ==> cells[i] == Cell(if Placed(l, i, a, b, k) then 1 else 0, 0)
  }

  lemma NoneAlive(s: seq<bool>)
    requires forall i :: 0 <= i < |s| ==> !s[i]
    ensures Count(s) == 0
  {
  }

  // The cells among the first j of the order have their next state.
  ghost predicate WrittenFirst(next: seq<bool>, wanted: seq<bool>, order: seq<nat>, j: nat)
    requires j <= |order|
  {
    |next| == |wanted| && forall i :: 0 <= i < |next| && multiset(order[..j])[i] > 0 ==> next[i] == wanted[i]
  }

  lemma WrittenNext(next: seq<bool>, wanted: seq<bool>, order: seq<nat>, j: nat)
    requires j < |order| && WrittenFirst(next, wanted, order, j) && order[j] < |next|
    ensures WrittenFirst(next[order[j] := wanted[order[j]]], wanted, order, j + 1)
  {
    PrefixCount(order, j);
  }

  lemma WrittenAll(next: seq<bool>, wanted: seq<bool>, order: seq<nat>)
    requires WrittenFirst(next, wanted, order, |order|) && Runs(order, |wanted|, 1)
    ensures next == wanted
  {
    assert order[..|order|] == order;
  }

  // Each cell's stage is the number of its steps among the first j.
  ghost predicate StagesAre(stage: seq<nat>, schedule: seq<nat>, j: nat)
    requires j <= |schedule|
  {
    |stage| == COUNT && forall i :: 0 <= i < COUNT ==> stage[i] == multiset(schedule[..j])[i]
  }

  lemma OneMoreStage(stage: seq<nat>, schedule: seq<nat>, j: nat)
    requires Runs(schedule, COUNT, 3) && j < |schedule| && StagesAre(stage, schedule, j)
    ensures schedule[j] < COUNT && stage[schedule[j]] < 3
    ensures StagesAre(stage[schedule[j] := stage[schedule[j]] + 1], schedule, j + 1)
  {
    PrefixCount(schedule, j);
  }

  lemma FreshMidway(w: Commit, start: seq<Cell>, board: seq<UInt8>, next: seq<bool>)
    requires w.cells == start && w.board == board && w.living == Count(AliveMap(start))
    requires |start| == |board| == |next| < WORD && Sized(w, |next|)
    requires forall i :: 0 <= i < |next| ==> w.stage[i] == 0
    ensures Midway(w, start, board, next)
  {
    TallyStart(start, next, w.stage);
    forall i | 0 <= i < |next|
      ensures CellMidway(w, start, board, next, i)
    {
    }
  }

  class LifeSimulation {
    const cells: array<Cell>
    const next: array<bool>
    const board: array<UInt8>
    const pixels: array<UInt8>
    var living: nat
    var rule: Rule
    var generation: nat

    predicate Shape() {
      && cells.Length == COUNT && next.Length == COUNT && board.Length == COUNT && pixels.Length == 4 * COUNT
      && board != pixels
    }

    // Snapshot and counter agree with the cells.
    ghost predicate Coherent()
      reads this, cells, board
    {
      && Shape() && CellsOk(cells[..])
      && IsBoardOf(board[..], AliveMap(cells[..]))
      && living == Count(AliveMap(cells[..]))
    }

    // And so does the picture.
    ghost predicate Valid()
      reads this, cells, board, pixels
    {
      Coherent() && ShowAll(pixels[..], cells[..])
    }

    constructor ()
      ensures Valid() && generation == 0 && rule == Conway
      ensures fresh(cells) && fresh(next) && fresh(board) && fresh(pixels)
    {
      cells := new Cell[COUNT](_ => Cell(0, 0));
      next := new bool[COUNT](_ => false);
      board := new UInt8[COUNT](_ => 0);
      pixels := new UInt8[4 * COUNT](_ => 0);
      living, rule, generation := 0, Conway, 0;
      new;
      LoadGliderFleet();
    }

    method IsAlive(x: nat, y: nat) returns (r: bool)
      requires Valid()
      ensures r == (x < 1024 && y < 1024 && Alive(cells[y * 1024 + x]))
    {
      r := x < WIDTH && y < HEIGHT && cells[Index(x, y)].age != 0;
    }

    function Index(x: nat, y: nat): (r: nat)
      requires x < WIDTH && y < HEIGHT
      ensures r < COUNT && r == At(x, y)
    {
      y * WIDTH + x
    }

    method SetCell(x: nat, y: nat, alive: bool)
      requires Valid()
      modifies this`living, cells, board, pixels
      ensures Valid()
      ensures cells[..] == if x < 1024 && y < 1024 && Alive(old(cells[..])[y * 1024 + x]) != alive
                           then old(cells[..])[y * 1024 + x := if alive then Cell(1, 0) else Cell(0, 18)]
                           else old(cells[..])
    {
      if x >= WIDTH || y >= HEIGHT {
        return;
      }
      var index := Index(x, y);
      var wasAlive := cells[index].age != 0;
      if wasAlive == alive {
        return;
      }
      ghost var before := cells[..];
      cells[index] := Cell(if alive then 1 else 0, if alive then 0 else TRAIL);
      board[index] := if alive then 1 else 0;
      CountUpdate(AliveMap(before), index, alive);
      assert AliveMap(cells[..]) == AliveMap(before)[index := alive];
      living := if alive then living + 1 else living - 1;
      ghost var painted := pixels[..];
      WritePixel(pixels, index, cells[index].age, cells[index].trail);
      PaintedAll(painted, pixels[..], before, index, cells[index]);
    }

    method SetRule(newRule: Rule)
      requires Valid()
      modifies this`rule
      ensures Valid() && rule == newRule
    {
      rule := newRule;
    }

    // Rebuilds the snapshot, the counter and the picture from the cells.
    method RefreshPresentation()
      requires Shape() && CellsOk(cells[..])
      modifies this`living, board, pixels
      ensures Valid()
    {
      ghost var alive := AliveMap(cells[..]);
      living := 0;
      for index := 0 to COUNT
        invariant living == Count(alive[..index])
        invariant forall i :: 0 <= i < index ==> board[i] == Bit(alive[i])
        invariant ShowFirst(pixels[..], cells[..], index)
      {
        var isAlive := cells[index].age != 0;
        CountPrefix(alive, index);
        board[index] := if isAlive then 1 else 0;
        living := living + if isAlive then 1 else 0;
        ghost var before := pixels[..];
        WritePixel(pixels, index, cells[index].age, cells[index].trail);
        ShowNext(before, pixels[..], cells[..], index);
      }
      assert alive[..COUNT] == alive;
    }

    method ResetCells()
      requires Shape()
      modifies cells
      ensures forall i :: 0 <= i < COUNT ==> cells[i] == Cell(0, 0)
    {
      for index := 0 to COUNT
        invariant forall i :: 0 <= i < index ==> cells[i] == Cell(0, 0)
      {
        cells[index] := Cell(0, 0);
      }
    }

    method Clear()
      requires Shape()
      modifies this`living, this`generation, cells, board, pixels
      ensures Valid() && living == 0 && generation == 0
      ensures forall i :: 0 <= i < COUNT ==> cells[i] == Cell(0, 0)
    {
      ResetCells();
      generation := 0;
      RefreshPresentation();
      NoneAlive(AliveMap(cells[..]));
    }

    // The random draws are a parameter.
    method Randomize(draws: seq<bool>)
      requires Shape() && |draws| == COUNT
      modifies this`living, this`generation, cells, board, pixels
      ensures Valid() && generation == 0
      ensures forall i :: 0 <= i < COUNT ==> cells[i] == Cell(if draws[i] then 1 else 0, 0)
    {
      for index := 0 to COUNT
        invariant forall i :: 0 <= i < index ==> cells[i] == Cell(if draws[i] then 1 else 0, 0)
      {
        cells[index] := Cell(if draws[index] then 1 else 0, 0);
      }
      generation := 0;
      RefreshPresentation();
    }

    method SetSeedCell(x: nat, y: nat)
      requires Shape() && x < WIDTH && y < HEIGHT
      modifies cells
      ensures cells[..] == old(cells[..])[At(x, y) := Cell(1, old(cells[..])[At(x, y)].trail)]
    {
      var i := Index(x, y);
      cells[i] := Cell(1, cells[i].trail);
    }

    // One copy of the pattern.
    method LoadCopy(l: Layout, x: nat, y: nat, ghost a: nat, ghost b: nat)
      requires Shape() && LayoutOk(l) && SeededUpTo(cells[..], l, a, b, 0)
      requires x == l.first + l.step * a && y == l.first + l.step * b && x + l.reach < WIDTH && y + 3 < HEIGHT
      modifies cells
      ensures SeededUpTo(cells[..], l, a + 1, b, 0)
    {
      for k := 0 to |l.pattern|
        invariant SeededUpTo(cells[..], l, a, b, k)
      {
        CopyCell(l, a, b, k);
        SetSeedCell(x + l.pattern[k].0, y + l.pattern[k].1);
        forall i | 0 <= i < COUNT
          ensures cells[i] == Cell(if Placed(l, i, a, b, k + 1) then 1 else 0, 0)
        {
          PlaceOne(l, a, b, k, i);
        }
      }
      forall i | 0 <= i < COUNT
        ensures Placed(l, i, a, b, |l.pattern|) <==> Placed(l, i, a + 1, b, 0)
      {
        CopyDone(l, a, b, i);
      }
    }

    method LoadRow(l: Layout, y: nat, ghost b: nat)
      requires Shape() && LayoutOk(l) && SeededUpTo(cells[..], l, 0, b, 0)
      requires y == l.first + l.step * b && y + 3 < HEIGHT
      modifies cells
      ensures SeededUpTo(cells[..], l, 0, b + 1, 0)
    {
      var x := l.first;
      ghost var a := 0;
      while x + l.reach < WIDTH
        invariant x == l.first + l.step * a
        invariant SeededUpTo(cells[..], l, a, b, 0)
        decreases WIDTH - x
      {
        LoadCopy(l, x, y, a, b);
        x := x + l.step;
        a := a + 1;
      }
      forall i | 0 <= i < COUNT
        ensures Placed(l, i, a, b, 0) <==> Placed(l, i, 0, b + 1, 0)
      {
        RowDone(l, a, b, i);
      }
    }

    // The cells end up exactly on the copies of the pattern.
    method LoadPattern(l: Layout)
      requires Shape() && LayoutOk(l)
      modifies this`living, this`generation, cells, board, pixels
      ensures Valid() && generation == 0
      ensures forall i :: 0 <= i < COUNT ==> cells[i] == Cell(if Seeded(l, i) then 1 else 0, 0)
    {
      ResetCells();
      var y := l.first;
      ghost var b := 0;
      while y + 3 < HEIGHT
        invariant y == l.first + l.step * b
        invariant SeededUpTo(cells[..], l, 0, b, 0)
        decreases HEIGHT - y
      {
        LoadRow(l, y, b);
        y := y + l.step;
        b := b + 1;
      }
      forall i | 0 <= i < COUNT
        ensures cells[i] == Cell(if Seeded(l, i) then 1 else 0, 0)
      {
        FieldDone(l, b, i);
        assert cells[i] == cells[..][i];
      }
      generation := 0;
      RefreshPresentation();
    }

    method LoadGliderFleet()
      requires Shape()
      modifies this`living, this`generation, cells, board, pixels
      ensures Valid() && generation == 0
      ensures forall i :: 0 <= i < COUNT ==>
        cells[i] == if OfGlider(i % 32, i / 1024 % 32) then Cell(1, 0) else Cell(0, 0)
    {
      LoadPattern(GLIDERS);
      forall i | 0 <= i < COUNT
        ensures Seeded(GLIDERS, i) <==> OfGlider(i % 32, i / 1024 % 32)
      {
        GlidersAre(i);
      }
    }

    method LoadMethuselahField()
      requires Shape()
      modifies this`living, this`generation, cells, board, pixels
      ensures Valid() && generation == 0
      ensures forall i :: 0 <= i < COUNT ==>
        cells[i] == if OfAcorn(i % 64, i / 1024 % 64) then Cell(1, 0) else Cell(0, 0)
    {
      LoadPattern(ACORNS);
      forall i | 0 <= i < COUNT
        ensures Seeded(ACORNS, i) <==> OfAcorn(i % 64, i / 1024 % 64)
      {
        AcornsAre(i);
      }
    }

    /* ---------- one fixed step ---------- */

    // Evolve reads the snapshot only, so its order does not matter.
    method Evolve(order: seq<nat>)
      requires Coherent() && Runs(order, COUNT, 1)
      modifies next
      ensures next[..] == NextMap(AliveMap(cells[..]), rule)
    {
      ghost var alive, wanted := AliveMap(cells[..]), NextMap(AliveMap(cells[..]), rule);
      for j := 0 to |order|
        invariant WrittenFirst(next[..], wanted, order, j)
      {
        ghost var before := next[..];
        WrittenNext(before, wanted, order, j);
        var i := order[j];
        next[i] := EvolveCell(board, cells[i], rule, i, alive);
      }
      WrittenAll(next[..], wanted, order);
    }

    ghost function Committing(stage: array<nat>, was: array<bool>): Commit
      reads this, cells, board, stage, was
    {
      Commit(cells[..], board[..], living, stage[..], was[..])
    }

    // One step of one cell's thread.
    method CommitStep(i: nat, stage: array<nat>, was: array<bool>)
      requires Shape() && i < COUNT && stage.Length == COUNT && was.Length == COUNT
      requires stage[i] < 3 && was != next
      modifies this`living, cells, board, stage, was
      ensures Committing(stage, was) == Advance(old(Committing(stage, was)), next[..], i)
    {
      if stage[i] == 0 {
        var wasAlive := cells[i].age != 0;
        if next[i] {
          var age := cells[i].age;
          cells[i] := Cell(if age < 0xffff then age + 1 else 0xffff, 0);
        } else {
          var trail := cells[i].trail;
          cells[i] := Cell(0, if wasAlive then TRAIL else if trail == 0 then 0 else trail - 1);
        }
        was[i] := wasAlive;
      } else if stage[i] == 1 {
        if was[i] != next[i] {
          living := if next[i] then (living + 1) % WORD else (living + WORD - 1) % WORD;
        }
      } else {
        board[i] := if next[i] then 1 else 0;
      }
      stage[i] := stage[i] + 1;
    }

    // A step of an unfinished commit leaves it unfinished, or done.
    method CommitMore(i: nat, stage: array<nat>, was: array<bool>, ghost start: seq<Cell>, ghost snapshot: seq<UInt8>)
      requires Shape() && i < COUNT && stage.Length == COUNT && was.Length == COUNT
      requires stage[i] < 3 && was != next && Midway(Committing(stage, was), start, snapshot, next[..])
      modifies this`living, cells, board, stage, was
      ensures Midway(Committing(stage, was), start, snapshot, next[..])
      ensures stage[..] == old(stage[..])[i := old(stage[i]) + 1]
    {
      ghost var before := Committing(stage, was);
      AdvanceKeeps(before, start, snapshot, next[..], i);
      CommitStep(i, stage, was);
      assert stage[..] == Committing(stage, was).stage;
    }

    // Every interleaving keeps the invariant of unfinished commits.
    method RunCommit(schedule: seq<nat>, stage: array<nat>, was: array<bool>,
                     ghost start: seq<Cell>, ghost snapshot: seq<UInt8>)
      requires Shape() && Runs(schedule, COUNT, 3)
      requires stage.Length == COUNT && was.Length == COUNT && was != next
      requires Midway(Committing(stage, was), start, snapshot, next[..])
      requires forall i :: 0 <= i < COUNT ==> stage[i] == 0
      modifies this`living, cells, board, stage, was
      ensures Midway(Committing(stage, was), start, snapshot, next[..])
      ensures forall i :: 0 <= i < COUNT ==> stage[i] == 3
    {
      for j := 0 to |schedule|
        invariant Midway(Committing(stage, was), start, snapshot, next[..])
        invariant StagesAre(stage[..], schedule, j)
      {
        ghost var before := stage[..];
        OneMoreStage(before, schedule, j);
        CommitMore(schedule[j], stage, was, start, snapshot);
      }
      assert schedule[..|schedule|] == schedule;
    }

    /** Whatever the interleaving, a commit is the synchronous generation. */
    method CommitAll(schedule: seq<nat>)
      requires Coherent() && Runs(schedule, COUNT, 3) && next[..] == NextMap(AliveMap(cells[..]), rule)
      modifies this`living, cells, board
      ensures Coherent() && cells[..] == Generation(old(cells[..]), rule)
    {
      ghost var start, snapshot := cells[..], board[..];
      var stage := new nat[COUNT](_ => 0);
      var was := new bool[COUNT](_ => false);
      TallyStart(start, next[..], stage[..]);
      FreshMidway(Committing(stage, was), start, snapshot, next[..]);
      RunCommit(schedule, stage, was, start, snapshot);
      CommitIsSynchronous(Committing(stage, was), start, snapshot, next[..]);
      GenerationIsSynchronous(start, rule);
      GenerationKeepsCells(start, rule);
    }

    // Evolve over all cells, then commit over all cells.
    method FixedStep(o: Orders)
      requires Coherent() && OrdersOk(o)
      modifies this`living, cells, next, board
      ensures Coherent() && cells[..] == Generation(old(cells[..]), rule)
    {
      Evolve(o.evolve);
      CommitAll(o.commit);
    }

    method Rasterize(order: seq<nat>)
      requires Coherent() && Runs(order, COUNT, 1)
      modifies pixels
      ensures Valid()
    {
      for j := 0 to |order|
        invariant forall i :: 0 <= i < COUNT && multiset(order[..j])[i] > 0 ==> Shows(pixels[..], i, cells[i])
      {
        PrefixCount(order, j);
        var index := order[j];
        ghost var before := pixels[..];
        WritePixel(pixels, index, cells[index].age, cells[index].trail);
        forall i | 0 <= i < COUNT && multiset(order[..j + 1])[i] > 0
          ensures Shows(pixels[..], i, cells[i])
        {
          if i != index {
            PaintedElsewhere(before, pixels[..], index, cells[index], i, cells[i]);
          }
        }
      }
      assert order[..|order|] == order;
    }

    /** The fixed steps the engine decides to run are the generations of the rule. */
    method StepGenerations(count: nat, steps: seq<Orders>, rasterize: seq<nat>)
      requires Valid() && (forall s :: s in steps ==> OrdersOk(s)) && Runs(rasterize, COUNT, 1)
      modifies this`living, this`generation, cells, next, board, pixels
      ensures Valid()
      ensures cells[..] == if count == 0 then old(cells[..]) else Generations(old(cells[..]), rule, |steps|)
      ensures generation == old(generation) + if count == 0 then 0 else |steps|
    {
      if count == 0 {
        return;
      }
      RunSteps(steps);
      Rasterize(rasterize);
      generation := generation + |steps|;
    }

    method RunSteps(steps: seq<Orders>)
      requires Coherent() && forall s :: s in steps ==> OrdersOk(s)
      modifies this`living, cells, next, board
      ensures Coherent() && cells[..] == Generations(old(cells[..]), rule, |steps|)
    {
      ghost var start := cells[..];
      for k := 0 to |steps|
        invariant Coherent() && cells[..] == Generations(start, rule, k)
      {
        assert OrdersOk(steps[k]);
        FixedStep(steps[k]);
      }
    }
  }
}
