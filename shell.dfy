/**
 * The interaction logic of the module: each square cycles through
 * 0 = unfilled, 1 = water, 2 = air; the module is solved once every square
 * shows its solution; the reset button clears the squares while unsolved;
 * and the remote commands turn into lists of square presses.
 */
module Shell {
  import opened Opt
  import opened Grid

  /** The value a square must show: 1 (water) or 2 (air). */
  function Target(water: bool): int { if water then 1 else 2 }

  /** The solved check: every square shows its target. */
  predicate ShowsSolution(data: seq<int>, solution: seq<bool>)
  {
    |data| == |solution| && forall i :: 0 <= i < |data| ==> data[i] == Target(solution[i])
  }

  /** Every square holds 0, 1 or 2. */
  predicate InRange(data: seq<int>)
  {
    forall i :: 0 <= i < |data| ==> 0 <= data[i] < 3
  }

  /** A snapshot of the module: the square values and whether it is solved. */
  datatype Board = Board(data: seq<int>, solved: bool)

  /**
   * The invariant the module keeps: 36 squares in range, and a board showing
   * the solution has been recognised as solved.
   */
  predicate Invariant(b: Board, solution: seq<bool>)
  {
    |b.data| == N && |solution| == N && InRange(b.data) && (!b.solved ==> !ShowsSolution(b.data, solution))
  }

  function Zeros(): (r: seq<int>)
    ensures |r| == N && forall i :: 0 <= i < N ==> r[i] == 0
  {
    seq(N, _ => 0)
  }

  /** The board after pressing `square`. */
  function PressAt(b: Board, solution: seq<bool>, square: int): (r: Board)
    requires 0 <= square < |b.data|
    ensures b.solved ==> r == b
    ensures !b.solved ==> r.data == b.data[square := (b.data[square] + 1) % 3]
    ensures r.solved <==> b.solved || ShowsSolution(r.data, solution)
  {
    if b.solved then b
    else
      var d := b.data[square := (b.data[square] + 1) % 3];
      Board(d, ShowsSolution(d, solution))
  }

  /** The board after the reset button. */
  function ResetAt(b: Board): (r: Board)
    ensures b.solved ==> r == b
    ensures !b.solved ==> r.data == Zeros() && !r.solved
  {
    if b.solved then b else Board(Zeros(), false)
  }

  /** An all-unfilled board is never a solution, since targets are 1 or 2. */
  lemma ZerosDoNotMatch(solution: seq<bool>)
    requires |solution| == N
    ensures !ShowsSolution(Zeros(), solution)
  {
    assert Zeros()[0] != Target(solution[0]);
  }

  /** Pressing keeps the invariant and can only set `solved`, never clear it. */
  lemma PressKeeps(b: Board, solution: seq<bool>, square: int)
    requires Invariant(b, solution) && 0 <= square < N
    ensures Invariant(PressAt(b, solution, square), solution)
    ensures b.solved ==> PressAt(b, solution, square).solved
  {
  }

  /** Resetting keeps the invariant. */
  lemma ResetKeeps(b: Board, solution: seq<bool>)
    requires Invariant(b, solution)
    ensures Invariant(ResetAt(b), solution)
  {
    ZerosDoNotMatch(solution);
  }

  /** Three presses bring an unsolved square back to where it was. */
  lemma ThreePressesCycle(b: Board, solution: seq<bool>, square: int)
    requires Invariant(b, solution) && 0 <= square < N
    requires !Run(b, solution, [square, square, square]).solved
    ensures Run(b, solution, [square, square, square]).data == b.data
  {
    var b1 := PressAt(b, solution, square);
    var b2 := PressAt(b1, solution, square);
    var b3 := PressAt(b2, solution, square);
    assert [square, square, square][1..] == [square, square];
    assert [square, square][1..] == [square];
    assert Run(b2, solution, [square]) == Run(b3, solution, []) == b3;
    assert Run(b1, solution, [square, square]) == Run(b2, solution, [square]);
  }

  /** A sequence of presses, one after the other. */
  function Run(b: Board, solution: seq<bool>, presses: seq<int>): (r: Board)
    requires forall k :: 0 <= k < |presses| ==> 0 <= presses[k] < |b.data|
    ensures |r.data| == |b.data|
    decreases |presses|
  {
    if presses == [] then b
    else Run(PressAt(b, solution, presses[0]), solution, presses[1..])
  }

  /** The squares after a sequence of presses, had none of them been ignored. */
  function Cycled(data: seq<int>, presses: seq<int>): (r: seq<int>)
    requires forall k :: 0 <= k < |presses| ==> 0 <= presses[k] < |data|
    ensures |r| == |data|
    decreases |presses|
  {
    if presses == [] then data
    else Cycled(data[presses[0] := (data[presses[0]] + 1) % 3], presses[1..])
  }

  /** Each square advances by the number of times it is pressed, modulo 3. */
  lemma {:induction false} CycledCount(data: seq<int>, presses: seq<int>, x: int)
    requires InRange(data) && 0 <= x < |data|
    requires forall k :: 0 <= k < |presses| ==> 0 <= presses[k] < |data|
    ensures Cycled(data, presses)[x] == (data[x] + Count(presses, x)) % 3
    decreases |presses|
  {
    if presses != [] {
      var d := data[presses[0] := (data[presses[0]] + 1) % 3];
      CycledCount(d, presses[1..], x);
      var m := Count(presses[1..], x);
      if x == presses[0] {
        AddOneMod(data[x], m);
      }
    }
  }

  lemma AddOneMod(a: int, m: int)
    ensures ((a + 1) % 3 + m) % 3 == (a + 1 + m) % 3
  {
    var q := (a + 1) / 3;
    assert a + 1 == 3 * q + (a + 1) % 3;
    assert a + 1 + m == 3 * q + ((a + 1) % 3 + m);
  }

  /**
   * A run that ends unsolved was never solved on the way, so no press was
   * ignored: its squares are the cycled ones.
   */
  lemma {:induction false} RunUnsolved(b: Board, solution: seq<bool>, presses: seq<int>)
    requires forall k :: 0 <= k < |presses| ==> 0 <= presses[k] < |b.data|
    requires !Run(b, solution, presses).solved
    ensures !b.solved && Run(b, solution, presses).data == Cycled(b.data, presses)
    decreases |presses|
  {
    if presses != [] {
      RunUnsolved(PressAt(b, solution, presses[0]), solution, presses[1..]);
    }
  }

  /** A run keeps the invariant. */
  lemma {:induction false} RunKeeps(b: Board, solution: seq<bool>, presses: seq<int>)
    requires Invariant(b, solution)
    requires forall k :: 0 <= k < |presses| ==> 0 <= presses[k] < N
    ensures Invariant(Run(b, solution, presses), solution)
    decreases |presses|
  {
    if presses != [] {
      PressKeeps(b, solution, presses[0]);
      RunKeeps(PressAt(b, solution, presses[0]), solution, presses[1..]);
    }
  }

  /**
   * The number of presses that take a square from c to d. The source's `%`
   * truncates, but 3 + d - c is never negative here, so it agrees with
   * Dafny's.
   */
  function PressCount(c: int, d: int): (r: int)
    requires 0 <= c < 3 && 0 <= d < 3
    ensures 0 <= r < 3
  {
    (3 + d - c) % 3
  }

  /**
   * Pressing `PressCount(c, d)` times from c leaves d, and any other number
   * of presses that does is larger by a multiple of 3.
   */
  lemma Reach(c: int, d: int, n: int)
    requires 0 <= c < 3 && 0 <= d < 3 && n >= 0
    ensures (c + PressCount(c, d)) % 3 == d
    ensures (c + n) % 3 == d <==> n >= PressCount(c, d) && (n - PressCount(c, d)) % 3 == 0
  {
  }

  function Repeat(cell: int, n: nat): (r: seq<int>)
    ensures |r| == n && forall k :: 0 <= k < n ==> r[k] == cell
  {
    seq(n, _ => cell)
  }

  /** The number of times x occurs in p. */
  function Count(p: seq<int>, x: int): (r: nat)
    ensures r <= |p|
  {
    if p == [] then 0 else (if p[0] == x then 1 else 0) + Count(p[1..], x)
  }

  lemma {:induction false} CountConcat(a: seq<int>, b: seq<int>, x: int)
    ensures Count(a + b, x) == Count(a, x) + Count(b, x)
  {
    if a == [] {
      assert a + b == b;
    } else {
      assert (a + b)[1..] == a[1..] + b;
      CountConcat(a[1..], b, x);
    }
  }

  lemma {:induction false} RepeatCount(cell: int, n: nat, x: int)
    ensures Count(Repeat(cell, n), x) == if x == cell then n else 0
  {
    if n > 0 {
      assert Repeat(cell, n)[1..] == Repeat(cell, n - 1);
      RepeatCount(cell, n - 1, x);
    }
  }

  /**
   * The water/air/reset command on a list of squares: each listed square is
   * pressed as often as needed to get from its value when the command was
   * given to the desired value.
   */
  function SetPresses(data: seq<int>, cells: seq<int>, desired: int): (r: seq<int>)
    requires InRange(data) && 0 <= desired < 3
    requires forall k :: 0 <= k < |cells| ==> 0 <= cells[k] < |data|
    ensures forall k :: 0 <= k < |r| ==> 0 <= r[k] < |data|
    decreases |cells|
  {
    if cells == [] then []
    else Repeat(cells[0], PressCount(data[cells[0]], desired)) + SetPresses(data, cells[1..], desired)
  }

  /** A square named m times is pressed m times its press count. */
  lemma {:induction false} SetPressesCount(data: seq<int>, cells: seq<int>, desired: int, x: int)
    requires InRange(data) && 0 <= desired < 3 && 0 <= x < |data|
    requires forall k :: 0 <= k < |cells| ==> 0 <= cells[k] < |data|
    ensures Count(SetPresses(data, cells, desired), x) == Count(cells, x) * PressCount(data[x], desired)
    decreases |cells|
  {
    if cells != [] {
      SetPressesCount(data, cells[1..], desired, x);
      SetPressesSplit(data, cells, desired, x);
      MulStep(Count(Repeat(cells[0], PressCount(data[cells[0]], desired)), x),
        Count(cells[1..], x), PressCount(data[x], desired), x == cells[0]);
    }
  }

  /** The presses for the head square come first, then those for the rest. */
  lemma SetPressesSplit(data: seq<int>, cells: seq<int>, desired: int, x: int)
    requires InRange(data) && 0 <= desired < 3 && 0 <= x < |data|
    requires forall k :: 0 <= k < |cells| ==> 0 <= cells[k] < |data|
    requires cells != []
    ensures var head := Repeat(cells[0], PressCount(data[cells[0]], desired));
      && Count(SetPresses(data, cells, desired), x) == Count(head, x) + Count(SetPresses(data, cells[1..], desired), x)
      && Count(head, x) == (if x == cells[0] then PressCount(data[x], desired) else 0)
      && Count(cells, x) == Count(cells[1..], x) + (if x == cells[0] then 1 else 0)
  {
    var head := Repeat(cells[0], PressCount(data[cells[0]], desired));
    var rest := SetPresses(data, cells[1..], desired);
    assert SetPresses(data, cells, desired) == head + rest;
    RepeatCount(cells[0], PressCount(data[cells[0]], desired), x);
    CountConcat(head, rest, x);
  }

  lemma MulStep(h: int, m: int, c: int, b: bool)
    requires h == if b then c else 0
    ensures h + m * c == (m + (if b then 1 else 0)) * c
  {
  }

  /**
   * Naming each square once, the command leaves every named square at the
   * desired value and every other square as it was, unless the module
   * became solved along the way.
   */
  lemma SetCommandSets(b: Board, solution: seq<bool>, cells: seq<int>, desired: int)
    requires Invariant(b, solution) && 0 <= desired < 3
    requires forall k :: 0 <= k < |cells| ==> 0 <= cells[k] < N
    requires forall k, l :: 0 <= k < l < |cells| ==> cells[k] != cells[l]
    ensures var r := Run(b, solution, SetPresses(b.data, cells, desired));
      r.solved || forall x :: 0 <= x < N ==> r.data[x] == if x in cells then desired else b.data[x]
  {
    var p := SetPresses(b.data, cells, desired);
    var r := Run(b, solution, p);
    if !r.solved {
      RunUnsolved(b, solution, p);
      SetCycled(b.data, cells, desired);
    }
  }

  /**
   * A name may be repeated: each mention adds the press count read once, at
   * command time, so a square named m times advances m times that count.
   */
  lemma SetCommandRepeats(b: Board, solution: seq<bool>, cells: seq<int>, desired: int)
    requires Invariant(b, solution) && 0 <= desired < 3
    requires forall k :: 0 <= k < |cells| ==> 0 <= cells[k] < N
    ensures var r := Run(b, solution, SetPresses(b.data, cells, desired));
      r.solved || forall x :: 0 <= x < N ==>
        r.data[x] == (b.data[x] + Count(cells, x) * PressCount(b.data[x], desired)) % 3
  {
    var p := SetPresses(b.data, cells, desired);
    var r := Run(b, solution, p);
    if !r.solved {
      RunUnsolved(b, solution, p);
      forall x | 0 <= x < N
        ensures r.data[x] == (b.data[x] + Count(cells, x) * PressCount(b.data[x], desired)) % 3
      {
        SetRepeatedAt(b.data, cells, desired, x);
      }
    }
  }

  lemma {:induction false} SetRepeatedAt(data: seq<int>, cells: seq<int>, desired: int, x: int)
    requires InRange(data) && 0 <= desired < 3 && 0 <= x < |data|
    requires forall k :: 0 <= k < |cells| ==> 0 <= cells[k] < |data|
    ensures Cycled(data, SetPresses(data, cells, desired))[x] == (data[x] + Count(cells, x) * PressCount(data[x], desired)) % 3
  {
    var p := SetPresses(data, cells, desired);
    var n := Count(p, x);
    assert Cycled(data, p)[x] == (data[x] + n) % 3 by {
      CycledCount(data, p, x);
    }
    assert n == Count(cells, x) * PressCount(data[x], desired) by {
      SetPressesCount(data, cells, desired, x);
    }
  }

  /** `water A1 A1` on an unfilled A1 presses it twice, leaving it air. */
  lemma {:induction false} WaterTwiceIsAir(b: Board, solution: seq<bool>, x: int)
    requires Invariant(b, solution) && 0 <= x < N && b.data[x] == 0
    ensures var r := Run(b, solution, SetPresses(b.data, [x, x], 1));
      r.solved || r.data[x] == 2
  {
    SetCommandRepeats(b, solution, [x, x], 1);
    assert [x, x][1..] == [x] && [x][1..] == [];
    assert Count([x, x], x) == 2;
    assert PressCount(b.data[x], 1) == 1;
  }

  lemma SetCycled(data: seq<int>, cells: seq<int>, desired: int)
    requires InRange(data) && 0 <= desired < 3
    requires forall k :: 0 <= k < |cells| ==> 0 <= cells[k] < |data|
    requires forall k, l :: 0 <= k < l < |cells| ==> cells[k] != cells[l]
    ensures var c := Cycled(data, SetPresses(data, cells, desired));
      forall x :: 0 <= x < |data| ==> c[x] == if x in cells then desired else data[x]
  {
    forall x | 0 <= x < |data|
      ensures Cycled(data, SetPresses(data, cells, desired))[x] == if x in cells then desired else data[x]
    {
      SetCycledAt(data, cells, desired, x);
    }
  }

  lemma SetCycledAt(data: seq<int>, cells: seq<int>, desired: int, x: int)
    requires InRange(data) && 0 <= desired < 3 && 0 <= x < |data|
    requires forall k :: 0 <= k < |cells| ==> 0 <= cells[k] < |data|
    requires forall k, l :: 0 <= k < l < |cells| ==> cells[k] != cells[l]
    ensures Cycled(data, SetPresses(data, cells, desired))[x] == if x in cells then desired else data[x]
  {
    CycledCount(data, SetPresses(data, cells, desired), x);
    SetCell(data, cells, desired, x);
  }

  /** The value a square reaches under the water/air/reset command on distinct squares. */
  lemma {:induction false} SetCell(data: seq<int>, cells: seq<int>, desired: int, x: int)
    requires InRange(data) && 0 <= desired < 3 && 0 <= x < |data|
    requires forall k :: 0 <= k < |cells| ==> 0 <= cells[k] < |data|
    requires forall k, l :: 0 <= k < l < |cells| ==> cells[k] != cells[l]
    ensures (data[x] + Count(SetPresses(data, cells, desired), x)) % 3 == if x in cells then desired else data[x]
  {
    SetPressesOnce(data, cells, desired, x);
    var v, n := data[x], Count(SetPresses(data, cells, desired), x);
    assert 0 <= v < 3;
    if x in cells {
      PressReaches(v, desired, n, true);
    } else {
      PressReaches(v, desired, n, false);
    }
  }

  /**
   * A square pressed its press count times reaches the desired value, and one
   * never pressed keeps its own.
   */
  lemma PressReaches(c: int, d: int, n: int, pressed: bool)
    requires 0 <= c < 3 && 0 <= d < 3
    requires n == if pressed then PressCount(c, d) else 0
    ensures (c + n) % 3 == if pressed then d else c
  {
  }

  /** Naming distinct squares, a named square is pressed its press count times and any other square never. */
  lemma {:induction false} SetPressesOnce(data: seq<int>, cells: seq<int>, desired: int, x: int)
    requires InRange(data) && 0 <= desired < 3 && 0 <= x < |data|
    requires forall k :: 0 <= k < |cells| ==> 0 <= cells[k] < |data|
    requires forall k, l :: 0 <= k < l < |cells| ==> cells[k] != cells[l]
    ensures Count(SetPresses(data, cells, desired), x) == if x in cells then PressCount(data[x], desired) else 0
  {
    DistinctCount(cells, x);
    SetPressesCount(data, cells, desired, x);
  }

  /** A square named once among distinct squares occurs once. */
  lemma {:induction false} DistinctCount(cells: seq<int>, x: int)
    requires forall k, l :: 0 <= k < l < |cells| ==> cells[k] != cells[l]
    ensures Count(cells, x) == if x in cells then 1 else 0
  {
    if cells != [] {
      var rest := cells[1..];
      assert forall k :: 0 <= k < |rest| ==> rest[k] == cells[k + 1];
      DistinctCount(rest, x);
      assert x in cells <==> x == cells[0] || x in rest;
      if x == cells[0] {
        assert x !in rest;
      }
    }
  }

  /** The unfilled squares, in order. */
  function Unfilled(data: seq<int>): (r: seq<int>)
    ensures forall k :: 0 <= k < |r| ==> 0 <= r[k] < |data|
  {
    if data == [] then []
    else Unfilled(data[..|data| - 1]) + (if data[|data| - 1] == 0 then [|data| - 1] else [])
  }

  /** Each unfilled square is listed once, and no other square. */
  lemma {:induction false} UnfilledCount(data: seq<int>, x: int)
    requires 0 <= x < |data|
    ensures Count(Unfilled(data), x) == if data[x] == 0 then 1 else 0
  {
    var init := data[..|data| - 1];
    var last: seq<int> := if data[|data| - 1] == 0 then [|data| - 1] else [];
    CountConcat(Unfilled(init), last, x);
    if x < |init| {
      UnfilledCount(init, x);
      assert init[x] == data[x];
    } else {
      UnfilledAbove(init, x);
    }
  }

  lemma {:induction false} UnfilledAbove(data: seq<int>, x: int)
    requires |data| <= x
    ensures Count(Unfilled(data), x) == 0
  {
    if data != [] {
      var init := data[..|data| - 1];
      var last: seq<int> := if data[|data| - 1] == 0 then [|data| - 1] else [];
      CountConcat(Unfilled(init), last, x);
      UnfilledAbove(init, x);
    }
  }

  /**
   * The "rest water" command presses each unfilled square once; "rest air"
   * presses the whole list twice over.
   */
  function RestPresses(data: seq<int>, water: bool): (r: seq<int>)
    ensures forall k :: 0 <= k < |r| ==> 0 <= r[k] < |data|
  {
    var u := Unfilled(data);
    if water then u else u + u
  }

  /**
   * After "rest water" (or "rest air") every unfilled square is water (or
   * air) and every other square is unchanged, unless the module became
   * solved along the way.
   */
  lemma RestCommandFills(b: Board, solution: seq<bool>, water: bool)
    requires Invariant(b, solution)
    ensures var r := Run(b, solution, RestPresses(b.data, water));
      r.solved || forall x :: 0 <= x < N ==> r.data[x] == if b.data[x] == 0 then Target(water) else b.data[x]
  {
    var p := RestPresses(b.data, water);
    var r := Run(b, solution, p);
    if !r.solved {
      RunUnsolved(b, solution, p);
      RestCycled(b.data, water);
    }
  }

  lemma RestCycled(data: seq<int>, water: bool)
    requires InRange(data)
    ensures var c := Cycled(data, RestPresses(data, water));
      forall x :: 0 <= x < |data| ==> c[x] == if data[x] == 0 then Target(water) else data[x]
  {
    forall x | 0 <= x < |data|
      ensures Cycled(data, RestPresses(data, water))[x] == if data[x] == 0 then Target(water) else data[x]
    {
      RestAt(data, water, x);
    }
  }

  lemma RestAt(data: seq<int>, water: bool, x: int)
    requires InRange(data) && 0 <= x < |data|
    ensures Cycled(data, RestPresses(data, water))[x] == if data[x] == 0 then Target(water) else data[x]
  {
    CycledCount(data, RestPresses(data, water), x);
    RestCell(data, water, x);
  }

  lemma RestCell(data: seq<int>, water: bool, x: int)
    requires InRange(data) && 0 <= x < |data|
    ensures (data[x] + Count(RestPresses(data, water), x)) % 3 == if data[x] == 0 then Target(water) else data[x]
  {
    var u := Unfilled(data);
    UnfilledCount(data, x);
    CountConcat(u, u, x);
    var n := Count(RestPresses(data, water), x);
    if data[x] == 0 {
      assert n == if water then 1 else 2;
    } else {
      assert n == 0 && 0 <= data[x] < 3;
    }
  }

  /** The value a solve command asks for at one square: `#` water, `.` air. */
  function Desired(c: char): int { if c == '#' then 1 else 2 }

  /** The presses of the solve command for the first n squares. */
  function SolvePresses(data: seq<int>, board: seq<char>, n: nat): (r: seq<int>)
    requires InRange(data) && n <= |data| && n <= |board|
    ensures forall k :: 0 <= k < |r| ==> 0 <= r[k] < n
  {
    if n == 0 then []
    else SolvePresses(data, board, n - 1) + Repeat(n - 1, PressCount(data[n - 1], Desired(board[n - 1])))
  }

  /** Square x is pressed as often as it takes to reach the board's value there. */
  lemma {:induction false} SolvePressesCount(data: seq<int>, board: seq<char>, n: nat, x: int)
    requires InRange(data) && n <= |data| && n <= |board| && 0 <= x < |data|
    ensures Count(SolvePresses(data, board, n), x) == if x < n then PressCount(data[x], Desired(board[x])) else 0
  {
    if n > 0 {
      var head := SolvePresses(data, board, n - 1);
      var c := PressCount(data[n - 1], Desired(board[n - 1]));
      var tail := Repeat(n - 1, c);
      assert SolvePresses(data, board, n) == head + tail;
      SolvePressesCount(data, board, n - 1, x);
      RepeatCount(n - 1, c, x);
      CountConcat(head, tail, x);
      if x == n - 1 {
        assert Count(head, x) == 0 && Count(tail, x) == c;
      } else {
        assert Count(tail, x) == 0;
      }
    }
  }

  /** The solve command with the right board always solves the module. */
  lemma SolveCommandSolves(b: Board, solution: seq<bool>, board: seq<char>)
    requires Invariant(b, solution) && |board| == N
    requires forall i :: 0 <= i < N ==> (board[i] == '#' <==> solution[i])
    ensures Run(b, solution, SolvePresses(b.data, board, N)).solved
  {
    var p := SolvePresses(b.data, board, N);
    var r := Run(b, solution, p);
    RunKeeps(b, solution, p);
    if !r.solved {
      RunUnsolved(b, solution, p);
      SolveCycled(b.data, board);
      assert false;
    }
  }

  lemma SolveCycled(data: seq<int>, board: seq<char>)
    requires InRange(data) && |data| == |board|
    ensures var c := Cycled(data, SolvePresses(data, board, |data|));
      forall x :: 0 <= x < |data| ==> c[x] == Desired(board[x])
  {
    forall x | 0 <= x < |data|
      ensures Cycled(data, SolvePresses(data, board, |data|))[x] == Desired(board[x])
    {
      SolveAt(data, board, x);
    }
  }

  lemma SolveAt(data: seq<int>, board: seq<char>, x: int)
    requires InRange(data) && |data| == |board| && 0 <= x < |data|
    ensures Cycled(data, SolvePresses(data, board, |data|))[x] == Desired(board[x])
  {
    SolvePressesCount(data, board, |data|, x);
    CycledReach(data, SolvePresses(data, board, |data|), x, Desired(board[x]));
  }

  /** A square pressed exactly its press count times reaches the desired value. */
  lemma CycledReach(data: seq<int>, presses: seq<int>, x: int, d: int)
    requires InRange(data) && 0 <= x < |data| && 0 <= d < 3
    requires forall k :: 0 <= k < |presses| ==> 0 <= presses[k] < |data|
    requires Count(presses, x) == PressCount(data[x], d)
    ensures Cycled(data, presses)[x] == d
  {
    CycledCount(data, presses, x);
    Reach(data[x], d, Count(presses, x));
  }

  /** A column letter, `A`-`F` in either case. */
  predicate IsLetter(c: char) { 'A' <= c <= 'F' || 'a' <= c <= 'f' }

  /** A row digit, `1`-`6`. */
  predicate IsDigit(c: char) { '1' <= c <= '6' }

  /**
   * The column a letter names: its position in `ABCDEFabcdef`, modulo 6,
   * which is its place in the alphabet whatever its case.
   */
  function Column(c: char): int
    requires IsLetter(c)
  {
    if c <= 'F' then c as int - 'A' as int else c as int - 'a' as int
  }

  /** The row a digit names: its position in `123456`. */
  function RowOf(c: char): int
    requires IsDigit(c)
  {
    c as int - '1' as int
  }

  /** `coord`: column letter then row digit; anything else has no square. */
  function Coord(s: string): (r: Option<int>)
    ensures r.Some? <==> |s| == 2 && IsLetter(s[0]) && IsDigit(s[1])
    ensures r.Some? ==> IsCell(r.value) && Col(r.value) == Column(s[0]) && Row(r.value) == RowOf(s[1])
  {
    if |s| == 2 && IsLetter(s[0]) && IsDigit(s[1]) then Some(Column(s[0]) + 6 * RowOf(s[1])) else None
  }

  /** The name of a square, upper case or lower case. */
  function Name(cell: int, upper: bool): (r: string)
    requires IsCell(cell)
    ensures |r| == 2
  {
    [((if upper then 'A' as int else 'a' as int) + Col(cell)) as char, ('1' as int + Row(cell)) as char]
  }

  /** Every square's name, in either case, reads back as that square. */
  lemma CoordName(cell: int, upper: bool)
    requires IsCell(cell)
    ensures Coord(Name(cell, upper)) == Some(cell)
  {
  }

  /** A string with a square is that square's name in one of the two cases. */
  lemma CoordOnlyNames(s: string)
    requires Coord(s).Some?
    ensures s == Name(Coord(s).value, true) || s == Name(Coord(s).value, false)
  {
    var v := Coord(s).value;
    if s[0] <= 'F' {
      assert s == Name(v, true);
    } else {
      assert s == Name(v, false);
    }
  }

  lemma CoordExamples()
    ensures Coord("C4") == Some(20) && Coord("c4") == Some(20)
    ensures Coord("G1") == None && Coord("A7") == None && Coord("A12") == None && Coord("") == None
  {
  }

  /** The squares named by a command, or None when one of the names is not a coordinate. */
  function CoordsOf(names: seq<string>): (r: Option<seq<int>>)
    ensures r.Some? <==> forall k :: 0 <= k < |names| ==> Coord(names[k]).Some?
    ensures r.Some? ==> |r.value| == |names| && forall k :: 0 <= k < |names| ==> r.value[k] == Coord(names[k]).value
  {
    if names == [] then Some([])
    else
      var rest := CoordsOf(names[1..]);
      if Coord(names[0]).None? then None
      else if rest.None? then
        assert exists k :: 1 <= k < |names| && Coord(names[k]).None? by {
          var k :| 0 <= k < |names[1..]| && Coord(names[1..][k]).None?;
          assert Coord(names[k + 1]).None?;
        }
        None
      else Some([Coord(names[0]).value] + rest.value)
  }

  /** The module: its squares, the solution, and whether it is solved. */
  class Module {
    var squareData: array<int>
    var solution: seq<bool>
    var solved: bool

    ghost predicate Valid()
      reads this, squareData
    {
      squareData.Length == N && Invariant(Board(squareData[..], solved), solution)
    }

    function State(): Board
      reads this, squareData
    {
      Board(squareData[..], solved)
    }

    /** A fresh module: all squares unfilled, not solved. */
    constructor(solution: seq<bool>)
      requires |solution| == N
      ensures Valid() && State() == Board(Zeros(), false) && this.solution == solution
    {
      squareData := new int[N](_ => 0);
      this.solution := solution;
      solved := false;
      new;
      ZerosDoNotMatch(solution);
    }

    /** `PressSquareHandler`: cycle the square, then check for a solve. */
    method Press(square: int)
      requires Valid() && 0 <= square < N
      modifies this`solved, squareData
      ensures Valid() && squareData == old(squareData) && solution == old(solution)
      ensures State() == PressAt(old(State()), solution, square)
    {
      if solved {
        return;
      }
      squareData[square] := (squareData[square] + 1) % 3;
      for i := 0 to N
        invariant forall k :: 0 <= k < i ==> squareData[k] == Target(solution[k])
      {
        if squareData[i] != Target(solution[i]) {
          return;
        }
      }
      solved := true;
    }

    /** `ResetButtonPressed`: clear all squares unless solved. */
    method ResetPressed()
      requires Valid()
      modifies this`squareData
      ensures Valid() && solution == old(solution) && solved == old(solved)
      ensures State() == ResetAt(old(State()))
      ensures !old(solved) ==> fresh(squareData)
    {
      if !solved {
        squareData := new int[N](_ => 0);
        ZerosDoNotMatch(solution);
      }
    }
  }
}
