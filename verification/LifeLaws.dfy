/** What the rule means on the board: cells that touch, runs of generations, colours. */
module LifeLaws {
  import opened LifeRules
  import opened LifeCommit
  import opened LifePixels

  /* ---------- the cells that touch a cell ---------- */

  // Two different cells whose columns and rows are equal or next to each other around the torus.
  predicate Touch(i: nat, j: nat) {
    && i != j
    && (i % 1024 - j % 1024) % 1024 in {0, 1, 1023}
    && (i / 1024 - j / 1024) % 1024 in {0, 1, 1023}
  }

  function LiveTouching(cells: seq<Cell>, i: nat): set<nat>
    requires |cells| == COUNT
  {
    set j | 0 <= j < COUNT && Touch(i, j) && cells[j].age != 0
  }

  function Indexes(x: int, y: int, offsets: seq<(int, int)>): (r: seq<nat>)
    ensures |r| == |offsets|
    ensures forall k :: 0 <= k < |r| ==> r[k] == At(x + offsets[k].0, y + offsets[k].1)
  {
    seq(|offsets|, k requires 0 <= k < |offsets| => At(x + offsets[k].0, y + offsets[k].1))
  }

  function LiveOf(alive: seq<bool>, indexes: seq<nat>): set<nat> {
    set j | j in indexes && j < |alive| && alive[j]
  }

  predicate AllDifferent(s: seq<nat>) {
    forall i, j :: 0 <= i < j < |s| ==> s[i] != s[j]
  }

  lemma {:induction false} LiveCount(alive: seq<bool>, x: int, y: int, offsets: seq<(int, int)>)
    requires |alive| == COUNT && AllDifferent(Indexes(x, y, offsets))
    ensures LiveAround(alive, x, y, offsets) == |LiveOf(alive, Indexes(x, y, offsets))|
    decreases |offsets|
  {
    if offsets == [] {
      assert LiveOf(alive, Indexes(x, y, offsets)) == {};
    } else {
      var j, rest := At(x + offsets[0].0, y + offsets[0].1), Indexes(x, y, offsets[1..]);
      assert Indexes(x, y, offsets) == [j] + rest;
      LiveFirst(alive, j, rest);
      LiveCount(alive, x, y, offsets[1..]);
    }
  }

  lemma LiveFirst(alive: seq<bool>, j: nat, rest: seq<nat>)
    requires j < |alive| && AllDifferent([j] + rest)
    ensures |LiveOf(alive, [j] + rest)| == (if alive[j] then 1 else 0) + |LiveOf(alive, rest)|
    ensures AllDifferent(rest)
  {
    var all := [j] + rest;
    forall k | 0 <= k < |rest|
      ensures rest[k] == all[k + 1] && rest[k] != j
    {
      assert all[0] != all[k + 1];
    }
    forall k, l | 0 <= k < l < |rest|
      ensures rest[k] != rest[l]
    {
      assert all[k + 1] != all[l + 1];
    }
    assert forall m :: m in all <==> m == j || m in rest;
    if alive[j] {
      assert LiveOf(alive, all) == LiveOf(alive, rest) + {j};
    } else {
      assert LiveOf(alive, all) == LiveOf(alive, rest);
    }
  }

  lemma AtParts(x: int, y: int)
    ensures At(x, y) % 1024 == x % 1024 && At(x, y) / 1024 == y % 1024
  {
  }

  lemma MooreDiffers(x: int, y: int, k: nat, l: nat)
    requires k < l < 8
    ensures At(x + Moore()[k].0, y + Moore()[k].1) != At(x + Moore()[l].0, y + Moore()[l].1)
  {
    AtParts(x + Moore()[k].0, y + Moore()[k].1);
    AtParts(x + Moore()[l].0, y + Moore()[l].1);
  }

  lemma MooreTouches(i: nat, k: nat)
    requires i < COUNT && k < 8
    ensures Touch(i, At(i % 1024 + Moore()[k].0, i / 1024 + Moore()[k].1))
  {
    AtParts(i % 1024 + Moore()[k].0, i / 1024 + Moore()[k].1);
  }

  // The offset that leads from cell i to a cell that touches it.
  lemma OffsetOf(i: nat, j: nat) returns (k: nat)
    requires i < COUNT && j < COUNT
    ensures k < 8
    ensures Touch(i, j) ==>
              (i % 1024 + Moore()[k].0) % 1024 == j % 1024 && (i / 1024 + Moore()[k].1) % 1024 == j / 1024
  {
    var dx, dy := (j % 1024 - i % 1024) % 1024, (j / 1024 - i / 1024) % 1024;
    k := if dy == 1023 then (if dx == 1023 then 0 else if dx == 0 then 1 else 2)
         else if dy == 0 then (if dx == 1023 then 3 else 4)
         else if dx == 1023 then 5 else if dx == 0 then 6 else 7;
  }

  lemma TouchIsMoore(i: nat, j: nat)
    requires i < COUNT && j < COUNT
    ensures Touch(i, j) ==> j in Indexes(i % 1024, i / 1024, Moore())
  {
    if Touch(i, j) {
      var k := OffsetOf(i, j);
      assert Indexes(i % 1024, i / 1024, Moore())[k] == j;
    }
  }

  /** The neighbours the rule counts are the living cells among those that touch. */
  lemma NeighborsTouch(cells: seq<Cell>, i: nat)
    requires |cells| == COUNT && i < COUNT
    ensures Neighbors(AliveMap(cells), i) == |LiveTouching(cells, i)|
  {
    var x, y, alive := i % 1024, i / 1024, AliveMap(cells);
    var indexes := Indexes(x, y, Moore());
    forall k, l | 0 <= k < l < |indexes|
      ensures indexes[k] != indexes[l]
    {
      MooreDiffers(x, y, k, l);
    }
    LiveCount(alive, x, y, Moore());
    forall k | 0 <= k < |indexes|
      ensures Touch(i, indexes[k])
    {
      MooreTouches(i, k);
    }
    forall j | j in LiveTouching(cells, i)
      ensures j in LiveOf(alive, indexes)
    {
      TouchIsMoore(i, j);
    }
    assert LiveTouching(cells, i) == LiveOf(alive, indexes);
  }

  /** One generation: a cell lives next exactly if three living cells touch it, or
      two and it lives, or, under HighLife, six and it does not. */
  lemma LivesNext(cells: seq<Cell>, rule: Rule, i: nat)
    requires |cells| == COUNT && i < COUNT
    ensures var n := |LiveTouching(cells, i)|;
      Generation(cells, rule)[i].age != 0 <==>
        n == 3 || (n == 2 && cells[i].age != 0) || (n == 6 && cells[i].age == 0 && rule == HighLife)
  {
    GenerationIsSynchronous(cells, rule);
    NeighborsTouch(cells, i);
  }

  /** The population counter's value: how many cells live. */
  lemma CountIsSize(s: seq<bool>)
    ensures Count(s) == |set i | 0 <= i < |s| && s[i]|
  {
    PrefixIsSize(s, |s|);
    assert s[..|s|] == s;
  }

  lemma {:induction false} PrefixIsSize(s: seq<bool>, n: nat)
    requires n <= |s|
    ensures Count(s[..n]) == |set i | 0 <= i < n && s[i]|
  {
    if n > 0 {
      var m := n - 1;
      PrefixIsSize(s, m);
      CountPrefix(s, m);
      assert (set i | 0 <= i < n && s[i]) == (set i | 0 <= i < m && s[i]) + if s[m] then {m} else {};
    }
  }

  /* ---------- runs of generations ---------- */

  // Cell i lives, or is dead, in each of the generations from `first` to n.
  ghost predicate Stays(cells: seq<Cell>, rule: Rule, i: nat, alive: bool, first: nat, n: nat)
    requires |cells| == COUNT && i < COUNT
  {
    forall k :: first <= k <= n ==> (Generations(cells, rule, k)[i].age != 0) == alive
  }

  /** A cell that lives on counts the generations up to 65535, and shows no trail. */
  lemma {:induction false} AgeCounts(cells: seq<Cell>, rule: Rule, i: nat, n: nat)
    requires |cells| == COUNT && i < COUNT && n > 0 && Stays(cells, rule, i, true, 1, n)
    ensures Generations(cells, rule, n)[i] ==
            Cell(if cells[i].age + n < 65535 then cells[i].age + n else 65535, 0)
  {
    if n > 1 {
      AgeCounts(cells, rule, i, n - 1);
    }
    StepsOn(cells, rule, i, n);
  }

  // The n-th generation is one step after the one before.
  lemma StepsOn(cells: seq<Cell>, rule: Rule, i: nat, n: nat)
    requires |cells| == COUNT && i < COUNT && n > 0
    ensures var after := Generations(cells, rule, n)[i];
      after == Committed(Generations(cells, rule, n - 1)[i], after.age != 0)
  {
    CommittedAt(Generations(cells, rule, n - 1), rule, i);
  }

  lemma CommittedAt(cells: seq<Cell>, rule: Rule, i: nat)
    requires |cells| == COUNT && i < COUNT
    ensures var after := Generation(cells, rule)[i]; after == Committed(cells[i], after.age != 0)
  {
    var next := NextMap(AliveMap(cells), rule);
    assert Generation(cells, rule)[i] == Committed(cells[i], next[i]);
  }

  /** A trail starts at 18 when a cell dies and loses one each further generation;
      a cell that was dead before only goes on fading. */
  lemma {:induction false} TrailFades(cells: seq<Cell>, rule: Rule, i: nat, n: nat)
    requires |cells| == COUNT && i < COUNT && n > 0 && Stays(cells, rule, i, false, 1, n)
    ensures var full: int := if cells[i].age != 0 then 19 else cells[i].trail;
      Generations(cells, rule, n)[i] == Cell(0, if full > n then full - n else 0)
  {
    if n > 1 {
      TrailFades(cells, rule, i, n - 1);
    }
    StepsOn(cells, rule, i, n);
  }

  /* ---------- colours ---------- */

  // The cell is shown in this opaque colour.
  predicate Coloured(c: Cell, red: int, green: int, blue: int) {
    && Pixel(c)[0] as int == red && Pixel(c)[1] as int == green
    && Pixel(c)[2] as int == blue && Pixel(c)[3] == 255
  }

  lemma ColouredBy(c: Cell)
    ensures var r := Channels(c.age, c.trail);
      Coloured(c, r[0] % 256, r[1] % 256, r[2] % 256)
  {
    assert Channels(c.age, c.trail)[3] == 255;
  }

  /** Young cells are green, and up to the age of 48 each generation adds 3 to red
      and takes 1 from green and 2 from blue; then the colour stays. */
  lemma AgeColours(age: UInt16, t: UInt8, red: int, green: int, blue: int)
    requires age > 0 && Coloured(Cell(age, t), red, green, blue)
    ensures age == 1 ==> (red, green, blue) == (37, 219, 188)
    ensures 0 < age < 48 ==> Coloured(Cell(age + 1, t), red + 3, green - 1, blue - 2)
    ensures 48 <= age < 65535 ==> Coloured(Cell(age + 1, t), red, green, blue)
  {
    ColouredBy(Cell(age, t));
    if age < 65535 {
      ColouredBy(Cell(age + 1, t));
    }
  }

  /** Trails are violet and darken with each generation down to the background. */
  lemma TrailColours(t: UInt8, red: int, green: int, blue: int)
    requires Coloured(Cell(0, t), red, green, blue)
    ensures t == 0 ==> (red, green, blue) == (5, 8, 18)
    ensures t == 1 ==> (red, green, blue) == (20, 13, 39)
    ensures 1 < t ==> Coloured(Cell(0, t - 1), (red - 4) % 256, (green - 1) % 256, (blue - 5) % 256)
  {
    ColouredBy(Cell(0, t));
    if t > 1 {
      ColouredBy(Cell(0, t - 1));
      Less(16 + t * 4, 4);
      Less(12 + t, 1);
      Less(34 + t * 5, 5);
    }
  }

  lemma Less(a: int, d: int)
    ensures (a % 256 - d) % 256 == (a - d) % 256
  {
  }
}
