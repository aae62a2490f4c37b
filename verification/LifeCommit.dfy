/**
 The commit system as threads run it: every cell takes three steps, a write of
 the cell, an atomic update of the shared population counter, and a write of
 the board, and the steps of different cells interleave in any order.
 */
module LifeCommit {
  import opened LifeRules

  const WORD: nat := 0x1_0000_0000_0000_0000

  /* ---------- counting ---------- */

  function Count(s: seq<bool>): (n: nat)
    ensures n <= |s|
  {
    if s == [] then 0 else (if s[0] then 1 else 0) + Count(s[1..])
  }

  lemma {:induction false} CountUpdate(s: seq<bool>, i: nat, b: bool)
    requires i < |s|
    ensures Count(s[i := b]) == Count(s) - (if s[i] then 1 else 0) + (if b then 1 else 0)
    ensures s[i] ==> Count(s) > 0
    ensures !s[i] ==> Count(s) < |s|
  {
    if i == 0 {
      assert s[i := b][1..] == s[1..];
    } else {
      assert s[i := b][1..] == s[1..][i - 1 := b];
      CountUpdate(s[1..], i - 1, b);
    }
  }

  lemma {:induction false} CountAppend(s: seq<bool>, b: bool)
    ensures Count(s + [b]) == Count(s) + if b then 1 else 0
  {
    if s != [] {
      assert (s + [b])[1..] == s[1..] + [b];
      CountAppend(s[1..], b);
    } else {
      assert (s + [b])[1..] == [];
    }
  }

  lemma CountPrefix(s: seq<bool>, i: nat)
    requires i < |s|
    ensures Count(s[..i + 1]) == Count(s[..i]) + if s[i] then 1 else 0
  {
    assert s[..i + 1] == s[..i] + [s[i]];
    CountAppend(s[..i], s[i]);
  }

  /* ---------- the steps of one commit ---------- */

  // Where each cell's thread stands, and what it remembers between its steps.
  datatype Commit = Commit(
    cells: seq<Cell>,
    board: seq<UInt8>,
    living: nat,
    stage: seq<nat>,
    was: seq<bool>)

  predicate Sized(w: Commit, n: nat) {
    |w.cells| == n && |w.board| == n && |w.stage| == n && |w.was| == n
  }

  // The counter after an atomic fetch_add or fetch_sub of one.
  function Counted(living: nat, was: bool, next: bool): nat {
    if was == next then living
    else if next then (living + 1) % WORD
    else (living + WORD - 1) % WORD
  }

  function Advance(w: Commit, next: seq<bool>, i: nat): Commit
    requires Sized(w, |next|) && i < |next|
  {
    if w.stage[i] == 0 then
      w.(cells := w.cells[i := Committed(w.cells[i], next[i])], was := w.was[i := Alive(w.cells[i])],
         stage := w.stage[i := 1])
    else if w.stage[i] == 1 then
      w.(living := Counted(w.living, w.was[i], next[i]), stage := w.stage[i := 2])
    else
      w.(board := w.board[i := Bit(next[i])], stage := w.stage[i := 3])
  }

  // The cells as the population counter sees them.
  function Tally(start: seq<Cell>, next: seq<bool>, stage: seq<nat>): (r: seq<bool>)
    requires |start| == |next| == |stage|
    ensures |r| == |start|
    ensures forall i :: 0 <= i < |r| ==> r[i] == if stage[i] >= 2 then next[i] else Alive(start[i])
  {
    seq(|start|, i requires 0 <= i < |start| => if stage[i] >= 2 then next[i] else Alive(start[i]))
  }

  // What holds after any number of steps of any cells.
  ghost predicate Midway(w: Commit, start: seq<Cell>, board: seq<UInt8>, next: seq<bool>) {
    && |start| == |board| == |next| < WORD && Sized(w, |next|)
    && (forall i :: 0 <= i < |next| ==> CellMidway(w, start, board, next, i))
    && w.living == Count(Tally(start, next, w.stage))
  }

  ghost predicate CellMidway(w: Commit, start: seq<Cell>, board: seq<UInt8>, next: seq<bool>, i: nat)
    requires i < |start| == |board| == |next| && Sized(w, |next|)
  {
    && w.stage[i] <= 3
    && w.cells[i] == (if w.stage[i] >= 1 then Committed(start[i], next[i]) else start[i])
    && (w.stage[i] >= 1 ==> w.was[i] == Alive(start[i]))
    && w.board[i] == if w.stage[i] >= 3 then Bit(next[i]) else board[i]
  }

  lemma TallyStart(start: seq<Cell>, next: seq<bool>, stage: seq<nat>)
    requires |start| == |next| == |stage| && forall i :: 0 <= i < |stage| ==> stage[i] == 0
    ensures Tally(start, next, stage) == AliveMap(start)
  {
  }

  lemma TallyEnd(start: seq<Cell>, next: seq<bool>, stage: seq<nat>)
    requires |start| == |next| == |stage| && forall i :: 0 <= i < |stage| ==> stage[i] == 3
    ensures Tally(start, next, stage) == next
  {
  }

  lemma TallyStep(start: seq<Cell>, next: seq<bool>, stage: seq<nat>, i: nat, s: nat)
    requires |start| == |next| == |stage| && i < |stage|
    ensures Tally(start, next, stage[i := s]) ==
            Tally(start, next, stage)[i := if s >= 2 then next[i] else Alive(start[i])]
  {
  }

  /** One more step of any cell keeps the invariant, and the counter neither
      underflows nor overflows. */
  lemma AdvanceKeeps(w: Commit, start: seq<Cell>, board: seq<UInt8>, next: seq<bool>, i: nat)
    requires Midway(w, start, board, next) && i < |next| && w.stage[i] < 3
    ensures Midway(Advance(w, next, i), start, board, next)
    ensures w.stage[i] == 1 && w.was[i] && !next[i] ==> 0 < w.living
    ensures w.stage[i] == 1 && !w.was[i] && next[i] ==> w.living + 1 < WORD
  {
    var v := Advance(w, next, i);
    var tally := Tally(start, next, w.stage);
    assert CellMidway(w, start, board, next, i);
    TallyStep(start, next, w.stage, i, w.stage[i] + 1);
    if w.stage[i] == 1 {
      CountUpdate(tally, i, next[i]);
    } else {
      assert Tally(start, next, v.stage) == tally;
    }
    forall j | 0 <= j < |next|
      ensures CellMidway(v, start, board, next, j)
    {
      assert CellMidway(w, start, board, next, j);
    }
  }

  /** Whatever the order of the steps, a finished commit is the synchronous one. */
  lemma CommitIsSynchronous(w: Commit, start: seq<Cell>, board: seq<UInt8>, next: seq<bool>)
    requires Midway(w, start, board, next) && forall i :: 0 <= i < |next| ==> w.stage[i] == 3
    ensures w.cells == CommittedAll(start, next)
    ensures IsBoardOf(w.board, next)
    ensures w.living == Count(next)
  {
    forall i | 0 <= i < |next|
      ensures w.cells[i] == CommittedAll(start, next)[i]
      ensures w.board[i] == Bit(next[i])
    {
      assert CellMidway(w, start, board, next, i);
    }
    TallyEnd(start, next, w.stage);
  }

  /* ---------- whole schedules ---------- */

  // The engine runs each of the n cells k times, in some order.
  ghost predicate Runs(schedule: seq<nat>, n: nat, k: nat) {
    && (forall j :: 0 <= j < |schedule| ==> schedule[j] < n)
    && (forall i :: 0 <= i < n ==> multiset(schedule)[i] == k)
  }

  lemma PrefixCount(schedule: seq<nat>, j: nat)
    requires j < |schedule|
    ensures multiset(schedule[..j + 1]) == multiset(schedule[..j]) + multiset{schedule[j]}
    ensures multiset(schedule[..j])[schedule[j]] < multiset(schedule)[schedule[j]]
  {
    assert schedule[..j + 1] == schedule[..j] + [schedule[j]];
    assert schedule == schedule[..j] + ([schedule[j]] + schedule[j + 1..]);
    MultisetAppend(schedule[..j], [schedule[j]] + schedule[j + 1..]);
    MultisetAppend([schedule[j]], schedule[j + 1..]);
  }

  lemma MultisetAppend(a: seq<nat>, b: seq<nat>)
    ensures multiset(a + b) == multiset(a) + multiset(b)
  {
  }

  function RunAll(w: Commit, next: seq<bool>, schedule: seq<nat>): (r: Commit)
    requires Sized(w, |next|) && forall j :: 0 <= j < |schedule| ==> schedule[j] < |next|
    ensures Sized(r, |next|)
    decreases |schedule|
  {
    if schedule == [] then w
    else RunAll(Advance(w, next, schedule[0]), next, schedule[1..])
  }

  function Started(cells: seq<Cell>, board: seq<UInt8>): Commit
    requires |cells| == |board|
  {
    Commit(cells, board, Count(AliveMap(cells)), seq(|cells|, _ => 0), AliveMap(cells))
  }

  lemma StartedMidway(cells: seq<Cell>, board: seq<UInt8>, next: seq<bool>)
    requires |cells| == |board| == |next| < WORD
    ensures Midway(Started(cells, board), cells, board, next)
  {
    var w := Started(cells, board);
    TallyStart(cells, next, w.stage);
    forall i | 0 <= i < |next|
      ensures CellMidway(w, cells, board, next, i)
    {
    }
  }

  // Each cell's stage is how often the schedule has run it.
  lemma {:induction false} RunAllStages(w: Commit, start: seq<Cell>, board: seq<UInt8>, next: seq<bool>,
                                        schedule: seq<nat>)
    requires Midway(w, start, board, next)
    requires forall j :: 0 <= j < |schedule| ==> schedule[j] < |next|
    requires forall i :: 0 <= i < |next| ==> w.stage[i] + multiset(schedule)[i] == 3
    ensures Midway(RunAll(w, next, schedule), start, board, next)
    ensures forall i :: 0 <= i < |next| ==> RunAll(w, next, schedule).stage[i] == 3
    decreases |schedule|
  {
    if schedule != [] {
      var i, rest := schedule[0], schedule[1..];
      assert schedule == [i] + rest;
      MultisetAppend([i], rest);
      assert multiset(schedule)[i] > 0;
      AdvanceKeeps(w, start, board, next, i);
      assert forall j :: 0 <= j < |rest| ==> rest[j] == schedule[j + 1];
      RunAllStages(Advance(w, next, i), start, board, next, rest);
    }
  }

  /** Confluence: any two complete schedules end in the same cells, board and count. */
  lemma Confluence(cells: seq<Cell>, board: seq<UInt8>, next: seq<bool>, one: seq<nat>, other: seq<nat>)
    requires |cells| == |board| == |next| < WORD
    requires Runs(one, |next|, 3) && Runs(other, |next|, 3)
    ensures var v := RunAll(Started(cells, board), next, one); var w := RunAll(Started(cells, board), next, other);
      && v.cells == w.cells == CommittedAll(cells, next)
      && v.board == w.board && v.living == w.living == Count(next)
  {
    StartedMidway(cells, board, next);
    RunAllStages(Started(cells, board), cells, board, next, one);
    RunAllStages(Started(cells, board), cells, board, next, other);
    CommitIsSynchronous(RunAll(Started(cells, board), next, one), cells, board, next);
    CommitIsSynchronous(RunAll(Started(cells, board), next, other), cells, board, next);
  }
}
