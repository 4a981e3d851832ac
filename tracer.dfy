/**
 * The outline tracer behind the region borders of the SVG solution picture.
 * `tracePolygon` walks the boundary of a cell set clockwise, one unit edge
 * per step, with a four-direction state machine, and records a corner at
 * every turn. A state `(i, j, dir)` always denotes a directed boundary edge
 * (a unit edge between a present and an absent cell, present cell on the
 * right-hand side); the step is a bijection on those edges, so the walk
 * comes back to its first edge, which is what stops the source's
 * `while (true)`.
 */
module Tracer {
  import opened Opt
  import opened Grid

  datatype Dir = Up | Right | Down | Left
  datatype XY = XY(x: int, y: int)
  datatype State = State(i: int, j: int, dir: Dir)

  /** `get`: the cell at column x, row y is inside the grid and in the set. */
  predicate Get(cells: set<int>, x: int, y: int)
  {
    0 <= x < W && 0 <= y < H && x + W * y in cells
  }

  /** `getDir`: the direction from one corner to the next. */
  function GetDir(from: XY, to: XY): Dir
  {
    if from.x == to.x then (if from.y > to.y then Up else Down)
    else (if from.x > to.x then Left else Right)
  }

  /**
   * The state is a boundary edge: for Up the left edge of cell (i, j), for
   * Right its top edge, for Down the right edge of cell (i - 1, j), for Left
   * the bottom edge of cell (i, j - 1).
   */
  predicate Boundary(cells: set<int>, s: State)
  {
    match s.dir
    case Up => Get(cells, s.i, s.j) && !Get(cells, s.i - 1, s.j)
    case Right => Get(cells, s.i, s.j) && !Get(cells, s.i, s.j - 1)
    case Down => Get(cells, s.i - 1, s.j) && !Get(cells, s.i, s.j)
    case Left => Get(cells, s.i, s.j - 1) && !Get(cells, s.i, s.j)
  }

  /**
   * One pass through the `switch (dir)` of `tracePolygon` (without the
   * visited-arrow test of the Up case): the next edge. Right turns are tried
   * before left turns.
   */
  function Next(cells: set<int>, s: State): State
  {
    var i, j := s.i, s.j;
    match s.dir
    case Up =>
      if !Get(cells, i, j - 1) then State(i, j, Right)
      else if Get(cells, i - 1, j - 1) then State(i - 1, j, Left)
      else State(i, j - 1, Up)
    case Down =>
      if !Get(cells, i - 1, j + 1) then State(i - 1, j + 1, Left)
      else if Get(cells, i, j + 1) then State(i, j + 1, Right)
      else State(i, j + 1, Down)
    case Left =>
      if !Get(cells, i - 1, j - 1) then State(i, j - 1, Up)
      else if Get(cells, i - 1, j) then State(i, j, Down)
      else State(i - 1, j, Left)
    case Right =>
      if !Get(cells, i + 1, j) then State(i + 1, j, Down)
      else if Get(cells, i + 1, j - 1) then State(i + 1, j - 1, Up)
      else State(i + 1, j, Right)
  }

  /** The unique boundary edge whose step leads to s. */
  function Pred(cells: set<int>, s: State): State
  {
    var a, b := s.i, s.j;
    match s.dir
    case Up =>
      if !Get(cells, a, b + 1) then State(a, b + 1, Left)
      else if Get(cells, a - 1, b + 1) then State(a - 1, b + 1, Right)
      else State(a, b + 1, Up)
    case Right =>
      if !Get(cells, a - 1, b) then State(a, b, Up)
      else if !Get(cells, a - 1, b - 1) then State(a - 1, b, Right)
      else State(a, b - 1, Down)
    case Down =>
      if !Get(cells, a - 1, b - 1) then State(a - 1, b, Right)
      else if !Get(cells, a, b - 1) then State(a, b - 1, Down)
      else State(a, b, Left)
    case Left =>
      if !Get(cells, a + 1, b - 1) then State(a + 1, b - 1, Down)
      else if !Get(cells, a + 1, b) then State(a + 1, b, Left)
      else State(a + 1, b, Up)
  }

  /** A step keeps the walk on the boundary, and it can be undone. */
  lemma StepBoundary(cells: set<int>, s: State)
    requires Boundary(cells, s)
    ensures Boundary(cells, Next(cells, s))
    ensures Pred(cells, Next(cells, s)) == s
  {
  }

  /** The state after n steps. */
  function Iter(cells: set<int>, s: State, n: nat): State
    decreases n
  {
    if n == 0 then s else Iter(cells, Next(cells, s), n - 1)
  }

  /** The state after n + 1 steps is one step after the state after n steps. */
  lemma {:induction false} IterSnoc(cells: set<int>, s: State, n: nat)
    ensures Iter(cells, s, n + 1) == Next(cells, Iter(cells, s, n))
    decreases n
  {
    if n > 0 {
      IterSnoc(cells, Next(cells, s), n - 1);
    }
  }

  lemma {:induction false} IterBoundary(cells: set<int>, s: State, n: nat)
    requires Boundary(cells, s)
    ensures Boundary(cells, Iter(cells, s, n))
    decreases n
  {
    if n > 0 {
      StepBoundary(cells, s);
      IterBoundary(cells, Next(cells, s), n - 1);
    }
  }

  lemma {:induction false} IterAdd(cells: set<int>, s: State, a: nat, b: nat)
    ensures Iter(cells, s, a + b) == Iter(cells, Iter(cells, s, a), b)
    decreases a
  {
    if a > 0 {
      IterAdd(cells, Next(cells, s), a - 1, b);
    }
  }

  /** Two walks from the start that meet after a and b steps: the start recurs after b - a. */
  lemma {:induction false} IterCancel(cells: set<int>, s: State, a: nat, b: nat)
    requires Boundary(cells, s) && a <= b && Iter(cells, s, a) == Iter(cells, s, b)
    ensures Iter(cells, s, b - a) == s
  {
    if a > 0 {
      IterPred(cells, s, a);
      IterPred(cells, s, b);
      IterCancel(cells, s, a - 1, b - 1);
    }
  }

  /** Stepping back from the n-th state of a walk gives its (n - 1)-th state. */
  lemma IterPred(cells: set<int>, s: State, n: nat)
    requires Boundary(cells, s) && n > 0
    ensures Pred(cells, Iter(cells, s, n)) == Iter(cells, s, n - 1)
  {
    IterBoundary(cells, s, n - 1);
    StepBoundary(cells, Iter(cells, s, n - 1));
    IterSnoc(cells, s, n - 1);
  }

  /** A boundary state as a number below 4 * 7 * 7. */
  function Code(s: State): int
  {
    (match s.dir case Up => 0 case Right => 1 case Down => 2 case Left => 3) * 49 + s.i * 7 + s.j
  }

  lemma CodeRange(cells: set<int>, s: State)
    requires Boundary(cells, s)
    ensures 0 <= Code(s) < 196
  {
  }

  lemma CodeInjective(cells: set<int>, s: State, t: State)
    requires Boundary(cells, s) && Boundary(cells, t) && Code(s) == Code(t)
    ensures s == t
  {
  }

  /** Among more than n values drawn from [0, n), two coincide. */
  lemma {:induction false} Pigeonhole(xs: seq<int>, n: nat)
    requires n >= 1 && |xs| > n && forall k :: 0 <= k < |xs| ==> 0 <= xs[k] < n
    ensures exists a, b :: 0 <= a < b < |xs| && xs[a] == xs[b]
  {
    if n == 1 {
      assert xs[0] == 0 == xs[1];
    } else if !exists a, b :: 0 <= a < b < |xs| && xs[a] == xs[b] {
      if k :| 0 <= k < |xs| && xs[k] == n - 1 {
        var ys := xs[..k] + xs[k + 1..];
        forall m | 0 <= m < |ys|
          ensures 0 <= ys[m] < n - 1
        {
          if m < k {
            assert ys[m] == xs[m];
          } else {
            assert ys[m] == xs[m + 1];
          }
        }
        Pigeonhole(ys, n - 1);
        var a, b :| 0 <= a < b < |ys| && ys[a] == ys[b];
        var a', b' := if a < k then a else a + 1, if b < k then b else b + 1;
        assert xs[a'] == ys[a] && xs[b'] == ys[b];
      } else {
        Pigeonhole(xs, n - 1);
      }
    }
  }

  /** The walk from a boundary edge comes back to it within 196 steps. */
  lemma Returns(cells: set<int>, s: State)
    requires Boundary(cells, s)
    ensures exists q :: 1 <= q <= 196 && Iter(cells, s, q) == s
  {
    var codes := seq(197, k requires 0 <= k < 197 => Code(Iter(cells, s, k)));
    forall k | 0 <= k < 197
      ensures 0 <= codes[k] < 196
    {
      IterBoundary(cells, s, k);
      CodeRange(cells, Iter(cells, s, k));
    }
    Pigeonhole(codes, 196);
    var a, b :| 0 <= a < b < 197 && codes[a] == codes[b];
    IterBoundary(cells, s, a);
    IterBoundary(cells, s, b);
    CodeInjective(cells, Iter(cells, s, a), Iter(cells, s, b));
    IterCancel(cells, s, a, b);
  }

  /** The first k' >= k at which the walk is back at s, given that it is back by q. */
  function ReturnAfter(cells: set<int>, s: State, k: nat, q: nat): (p: nat)
    requires 1 <= k <= q && Iter(cells, s, q) == s
    ensures k <= p <= q && Iter(cells, s, p) == s
    ensures forall m :: k <= m < p ==> Iter(cells, s, m) != s
    decreases q - k
  {
    if Iter(cells, s, k) == s then k else ReturnAfter(cells, s, k + 1, q)
  }

  /** The number of steps of one full lap: the least positive return time. */
  ghost function Period(cells: set<int>, s: State): (p: nat)
    requires Boundary(cells, s)
    ensures 1 <= p <= 196 && Iter(cells, s, p) == s
    ensures forall m :: 1 <= m < p ==> Iter(cells, s, m) != s
  {
    Returns(cells, s);
    var q :| 1 <= q <= 196 && Iter(cells, s, q) == s;
    ReturnAfter(cells, s, 1, q)
  }

  /**
   * The corner one pass adds to `result`: none when the direction stays,
   * otherwise the point where the new edge begins.
   */
  function Emitted(cells: set<int>, s: State): seq<XY>
  {
    var t := Next(cells, s);
    if t.dir != s.dir then [Start(t)] else []
  }

  /** `result` after k passes of the loop. */
  function Corners(cells: set<int>, s: State, k: nat): seq<XY>
  {
    if k == 0 then [] else Corners(cells, s, k - 1) + Emitted(cells, Iter(cells, s, k - 1))
  }

  /** The up arrows marked in `visitedUpArrow` during the first k passes. */
  function UpsIn(cells: set<int>, s: State, k: nat): set<(int, int)>
  {
    if k == 0 then {}
    else
      var t := Iter(cells, s, k - 1);
      UpsIn(cells, s, k - 1) + (if t.dir == Up then {(t.i, t.j)} else {})
  }

  /** A pass made on an up arrow marks that arrow. */
  lemma {:induction false} UpsInHas(cells: set<int>, s: State, k: nat, m: nat)
    requires m < k && Iter(cells, s, m).dir == Up
    ensures (Iter(cells, s, m).i, Iter(cells, s, m).j) in UpsIn(cells, s, k)
  {
    var t := Iter(cells, s, k - 1);
    var here: set<(int, int)> := if t.dir == Up then {(t.i, t.j)} else {};
    assert UpsIn(cells, s, k) == UpsIn(cells, s, k - 1) + here;
    if m < k - 1 {
      UpsInHas(cells, s, k - 1, m);
    }
  }

  /** Every marked arrow was marked by some pass on it. */
  lemma {:induction false} UpsInWitness(cells: set<int>, s: State, k: nat, a: int, b: int) returns (m: nat)
    requires (a, b) in UpsIn(cells, s, k)
    ensures m < k && Iter(cells, s, m) == State(a, b, Up)
  {
    var t := Iter(cells, s, k - 1);
    var here: set<(int, int)> := if t.dir == Up then {(t.i, t.j)} else {};
    assert UpsIn(cells, s, k) == UpsIn(cells, s, k - 1) + here;
    if (a, b) in UpsIn(cells, s, k - 1) {
      m := UpsInWitness(cells, s, k - 1, a, b);
    } else {
      assert (a, b) in here;
      m := k - 1;
    }
  }

  /** Marked arrows are up arrows (left edges), hence inside the grid. */
  lemma UpsInEdges(cells: set<int>, s: State, k: nat)
    requires Boundary(cells, s)
    ensures forall a, b :: (a, b) in UpsIn(cells, s, k) ==> Boundary(cells, State(a, b, Up))
  {
    forall a, b | (a, b) in UpsIn(cells, s, k)
      ensures Boundary(cells, State(a, b, Up))
    {
      var m := UpsInWitness(cells, s, k, a, b);
      IterBoundary(cells, s, m);
    }
  }

  /** Once the walk is back at its start it repeats itself: step n is step r of the first lap. */
  lemma {:induction false} IterWrap(cells: set<int>, s: State, p: nat, n: nat) returns (r: nat)
    requires p >= 1 && Iter(cells, s, p) == s
    ensures r < p && Iter(cells, s, n) == Iter(cells, s, r)
    decreases n
  {
    if n < p {
      r := n;
    } else {
      IterAdd(cells, s, p, n - p);
      assert Iter(cells, s, n) == Iter(cells, s, n - p);
      r := IterWrap(cells, s, p, n - p);
    }
  }

  /** Within one lap no state repeats. */
  lemma PeriodDistinct(cells: set<int>, s: State, a: nat, b: nat)
    requires Boundary(cells, s) && a < b < Period(cells, s)
    ensures Iter(cells, s, a) != Iter(cells, s, b)
  {
    if Iter(cells, s, a) == Iter(cells, s, b) {
      IterCancel(cells, s, a, b);
    }
  }

  /**
   * A set of marked arrows is closed when it holds, with every marked arrow,
   * every up arrow on that arrow's walk: the marks left by whole laps.
   */
  ghost predicate Closed(cells: set<int>, v: set<(int, int)>)
  {
    forall a, b, n: nat :: (a, b) in v && Iter(cells, State(a, b, Up), n).dir == Up ==>
      (Iter(cells, State(a, b, Up), n).i, Iter(cells, State(a, b, Up), n).j) in v
  }

  /**
   * Starting from an unmarked up arrow, the walk meets no marked arrow, old
   * or new, before its lap is over.
   */
  lemma TraceFresh(cells: set<int>, v: set<(int, int)>, s: State, k: nat)
    requires Closed(cells, v) && s.dir == Up && Boundary(cells, s) && (s.i, s.j) !in v
    requires k < Period(cells, s) && Iter(cells, s, k).dir == Up
    ensures (Iter(cells, s, k).i, Iter(cells, s, k).j) !in v
    ensures (Iter(cells, s, k).i, Iter(cells, s, k).j) !in UpsIn(cells, s, k)
  {
    var t := Iter(cells, s, k);
    var p := Period(cells, s);
    assert t == State(t.i, t.j, Up);
    IterAdd(cells, s, k, p - k);
    assert Iter(cells, State(t.i, t.j, Up), p - k) == s;
    if (t.i, t.j) in UpsIn(cells, s, k) {
      var m := UpsInWitness(cells, s, k, t.i, t.j);
      PeriodDistinct(cells, s, m, k);
    }
  }

  /** Adding a whole lap to closed marks keeps them closed. */
  lemma TraceClosed(cells: set<int>, v: set<(int, int)>, s: State)
    requires Closed(cells, v) && Boundary(cells, s)
    ensures Closed(cells, v + UpsIn(cells, s, Period(cells, s)))
  {
    var v' := v + UpsIn(cells, s, Period(cells, s));
    forall a, b, n: nat | (a, b) in v' && Iter(cells, State(a, b, Up), n).dir == Up
      ensures (Iter(cells, State(a, b, Up), n).i, Iter(cells, State(a, b, Up), n).j) in v'
    {
      if (a, b) !in v {
        LapClosedAt(cells, s, a, b, n);
      }
    }
  }

  /** The walk from an arrow of a lap meets only arrows of that lap. */
  lemma LapClosedAt(cells: set<int>, s: State, a: int, b: int, n: nat)
    requires Boundary(cells, s) && (a, b) in UpsIn(cells, s, Period(cells, s))
    requires Iter(cells, State(a, b, Up), n).dir == Up
    ensures (Iter(cells, State(a, b, Up), n).i, Iter(cells, State(a, b, Up), n).j) in UpsIn(cells, s, Period(cells, s))
  {
    var p := Period(cells, s);
    var m := UpsInWitness(cells, s, p, a, b);
    IterAdd(cells, s, m, n);
    var r := IterWrap(cells, s, p, m + n);
    var t := Iter(cells, s, r);
    assert t == Iter(cells, State(a, b, Up), n);
    assert State(t.i, t.j, Up) == t;
    UpsInHas(cells, s, p, r);
  }

  /** The grid corner at which a state's edge begins. */
  function Start(s: State): XY
  {
    match s.dir
    case Up => XY(s.i, s.j + 1)
    case Right => XY(s.i, s.j)
    case Down => XY(s.i, s.j)
    case Left => XY(s.i + 1, s.j)
  }

  function Move(p: XY, d: Dir): XY
  {
    match d
    case Up => XY(p.x, p.y - 1)
    case Right => XY(p.x + 1, p.y)
    case Down => XY(p.x, p.y + 1)
    case Left => XY(p.x - 1, p.y)
  }

  predicate Vertical(d: Dir) { d == Up || d == Down }

  /** The two directions are at right angles. */
  predicate Perp(d: Dir, e: Dir) { Vertical(d) != Vertical(e) }

  /**
   * Each step advances one unit edge in its direction, and a change of
   * direction is a quarter turn.
   */
  lemma StepGeometry(cells: set<int>, s: State)
    ensures Start(Next(cells, s)) == Move(Start(s), s.dir)
    ensures Next(cells, s).dir != s.dir ==> Perp(s.dir, Next(cells, s).dir)
  {
  }

  /** q lies zero or more unit moves from p in direction d. */
  predicate OnRay(p: XY, q: XY, d: Dir)
  {
    match d
    case Up => q.x == p.x && q.y <= p.y
    case Down => q.x == p.x && q.y >= p.y
    case Right => q.y == p.y && q.x >= p.x
    case Left => q.y == p.y && q.x <= p.x
  }

  /** The two corners share exactly one coordinate. */
  predicate OneAxis(p: XY, q: XY) { (p.x == q.x) != (p.y == q.y) }

  /** The index after t, around a cycle of n. */
  function Succ(t: int, n: int): int { if t + 1 == n then 0 else t + 1 }

  /**
   * Consecutive corners, last to first included, are joined by axis-parallel
   * segments, and every segment turns a quarter turn into the next one: the
   * 8 pairs `(dir1, dir2)` the corner classifier of `GenerateSvgPath` knows.
   */
  predicate Rectilinear(c: seq<XY>)
  {
    forall t :: 0 <= t < |c| ==>
      && OneAxis(c[t], c[Succ(t, |c|)])
      && Perp(GetDir(c[t], c[Succ(t, |c|)]), GetDir(c[Succ(t, |c|)], c[Succ(Succ(t, |c|), |c|)]))
  }

  /** A closed rectilinear polygon: alternating segments, an even number of at least 4 corners. */
  predicate ClosedRectilinear(c: seq<XY>)
  {
    Rectilinear(c) && |c| >= 4 && |c| % 2 == 0
  }

  /** The pairs the corner classifier handles, four outer and four inner corners. */
  predicate ClassifiedCorner(d1: Dir, d2: Dir)
  {
    || (d1 == Up && d2 == Right) || (d1 == Right && d2 == Down)
    || (d1 == Down && d2 == Left) || (d1 == Left && d2 == Up)
    || (d1 == Left && d2 == Down) || (d1 == Up && d2 == Left)
    || (d1 == Right && d2 == Up) || (d1 == Down && d2 == Right)
  }

  lemma PerpIsClassified(d1: Dir, d2: Dir)
    ensures Perp(d1, d2) <==> ClassifiedCorner(d1, d2)
  {
  }

  function Vert(c: seq<XY>, t: int): bool
    requires 0 <= t < |c|
  {
    Vertical(GetDir(c[t], c[Succ(t, |c|)]))
  }

  lemma {:induction false} Alternates(c: seq<XY>, t: nat)
    requires Rectilinear(c) && t < |c|
    ensures Vert(c, t) == (Vert(c, 0) != (t % 2 == 1))
  {
    if t > 0 {
      Alternates(c, t - 1);
      assert Succ(t - 1, |c|) == t;
    }
  }

  /** Segments alternate around the cycle, so a rectilinear cycle of two or more corners has an even number, at least 4. */
  lemma RectilinearEven(c: seq<XY>)
    requires Rectilinear(c) && |c| >= 2
    ensures ClosedRectilinear(c)
  {
    Alternates(c, |c| - 1);
    assert Succ(|c| - 1, |c|) == 0;
  }

  /** The direction of the segment ending at the last corner (for a single corner, the walk's initial Up). */
  function PrevDir(c: seq<XY>): Dir
  {
    if |c| >= 2 then GetDir(c[|c| - 2], c[|c| - 1]) else Up
  }

  /** What the corners found so far look like, k passes into a walk that starts on an up arrow. */
  predicate ShapeSoFar(cells: set<int>, s0: State, k: nat)
  {
    ShapeAt(Corners(cells, s0, k), Iter(cells, s0, k), Start(s0), k)
  }

  /** The corners c and the state s after k passes of a walk from the corner v0. */
  predicate ShapeAt(c: seq<XY>, s: State, v0: XY, k: nat)
  {
    if |c| == 0 then
      s.dir == Up && Start(s) == XY(v0.x, v0.y - k)
    else
      ShapePart(c, Start(s), s.dir, v0)
  }

  /**
   * A non-empty corner list that starts straight above v0, alternates axes,
   * and ends behind the current point p heading in direction d.
   */
  predicate ShapePart(c: seq<XY>, p: XY, d: Dir, v0: XY)
  {
    && |c| > 0
    && c[0].x == v0.x && c[0].y < v0.y
    && (|c| >= 2 ==> !Vertical(GetDir(c[0], c[1])))
    && OnRay(c[|c| - 1], p, d)
    && Perp(PrevDir(c), d)
    && (forall t :: 0 <= t < |c| - 1 ==> OneAxis(c[t], c[t + 1]))
    && (forall t :: 0 <= t < |c| - 2 ==> Perp(GetDir(c[t], c[t + 1]), GetDir(c[t + 1], c[t + 2])))
  }

  /** A straight step keeps the shape. */
  lemma ShapeStraight(c: seq<XY>, p: XY, d: Dir, v0: XY)
    requires ShapePart(c, p, d, v0)
    ensures ShapePart(c, Move(p, d), d, v0)
  {
  }

  /** A quarter turn appends the point where the new edge begins. */
  lemma ShapeTurn(c: seq<XY>, p: XY, d: Dir, d': Dir, v0: XY)
    requires ShapePart(c, p, d, v0) && Perp(d, d')
    ensures ShapePart(c + [Move(p, d)], Move(p, d), d', v0)
  {
    var q := Move(p, d);
    var c' := c + [q];
    var n := |c|;
    assert GetDir(c[n - 1], q) == d;
    assert PrevDir(c') == d;
    forall t | 0 <= t < |c'| - 1
      ensures OneAxis(c'[t], c'[t + 1])
    {
      if t < n - 1 {
        assert c'[t] == c[t] && c'[t + 1] == c[t + 1];
      }
    }
    forall t | 0 <= t < |c'| - 2
      ensures Perp(GetDir(c'[t], c'[t + 1]), GetDir(c'[t + 1], c'[t + 2]))
    {
      if t < n - 2 {
        assert c'[t] == c[t] && c'[t + 1] == c[t + 1] && c'[t + 2] == c[t + 2];
      } else {
        assert c'[t] == c[n - 2] && c'[t + 1] == c[n - 1] && c'[t + 2] == q;
      }
    }
    if n == 1 {
      assert c'[0] == c[0] && c'[1] == q;
    } else {
      assert c'[0] == c[0] && c'[1] == c[1];
    }
  }

  lemma ShapeStep(cells: set<int>, s0: State, k: nat)
    requires s0.dir == Up && ShapeSoFar(cells, s0, k)
    ensures ShapeSoFar(cells, s0, k + 1)
  {
    var s := Iter(cells, s0, k);
    var t := Next(cells, s);
    StepGeometry(cells, s);
    IterSnoc(cells, s0, k);
    var turned := t.dir != s.dir;
    assert Iter(cells, s0, k + 1) == t;
    assert Corners(cells, s0, k + 1) == Corners(cells, s0, k) + (if turned then [Start(t)] else []);
    ShapeAtStep(Corners(cells, s0, k), s, t, turned, Start(s0), k);
  }

  /** One pass, as StepGeometry describes it, keeps the shape of the corners. */
  lemma ShapeAtStep(c: seq<XY>, s: State, t: State, turned: bool, v0: XY, k: nat)
    requires ShapeAt(c, s, v0, k)
    requires Start(t) == Move(Start(s), s.dir)
    requires turned <==> t.dir != s.dir
    requires turned ==> Perp(s.dir, t.dir)
    ensures ShapeAt(c + (if turned then [Start(t)] else []), t, v0, k + 1)
  {
    if !turned {
      assert c + [] == c;
      if |c| > 0 {
        ShapeStraight(c, Start(s), s.dir, v0);
      }
    } else if |c| > 0 {
      ShapeTurn(c, Start(s), s.dir, t.dir, v0);
    }
  }

  lemma ShapeAll(cells: set<int>, s0: State, k: nat)
    requires s0.dir == Up
    ensures ShapeSoFar(cells, s0, k)
  {
    var P := (m: nat) => ShapeSoFar(cells, s0, m);
    assert P(0);
    forall m: nat | P(m)
      ensures P(m + 1)
    {
      ShapeStep(cells, s0, m);
    }
    NatInduction(P, k);
  }

  /** A lap from an up arrow records the corners of a closed rectilinear polygon. */
  lemma OutlineShape(cells: set<int>, s0: State, p: nat)
    requires s0.dir == Up && p >= 1 && Iter(cells, s0, p) == s0
    ensures ClosedRectilinear(Corners(cells, s0, p))
  {
    ShapeAll(cells, s0, p);
    var c := Corners(cells, s0, p);
    var n := |c|;
    assert n >= 2;
    forall t | 0 <= t < n
      ensures OneAxis(c[t], c[Succ(t, n)])
      ensures Perp(GetDir(c[t], c[Succ(t, n)]), GetDir(c[Succ(t, n)], c[Succ(Succ(t, n), n)]))
    {
      if t < n - 2 {
        assert Succ(t, n) == t + 1 && Succ(t + 1, n) == t + 2;
      } else if t == n - 2 {
        assert Succ(t, n) == n - 1 && Succ(n - 1, n) == 0;
      } else {
        assert Succ(t, n) == 0 && Succ(0, n) == 1;
      }
    }
    RectilinearEven(c);
  }

  /** An up arrow: cell (a, b) is present and its left neighbour is not. */
  predicate UpArrow(cells: set<int>, a: int, b: int)
  {
    Get(cells, a, b) && !Get(cells, a - 1, b)
  }

  /** The up arrows one lap from the up arrow x marks (none when x is no up arrow). */
  ghost function Lap(cells: set<int>, x: (int, int)): set<(int, int)>
  {
    if UpArrow(cells, x.0, x.1) then UpsIn(cells, State(x.0, x.1, Up), Period(cells, State(x.0, x.1, Up))) else {}
  }

  /** The up arrows marked by the laps started so far. */
  ghost function Marked(cells: set<int>, starts: seq<(int, int)>): set<(int, int)>
  {
    if starts == [] then {}
    else Marked(cells, starts[..|starts| - 1]) + Lap(cells, starts[|starts| - 1])
  }

  /** The outline of the lap from the up arrow x (empty when x is no up arrow). */
  ghost function Outline(cells: set<int>, x: (int, int)): seq<XY>
  {
    if UpArrow(cells, x.0, x.1) then Corners(cells, State(x.0, x.1, Up), Period(cells, State(x.0, x.1, Up))) else []
  }

  lemma LapEdges(cells: set<int>, x: (int, int))
    ensures forall a, b :: (a, b) in Lap(cells, x) ==> UpArrow(cells, a, b)
  {
    if UpArrow(cells, x.0, x.1) {
      UpsInEdges(cells, State(x.0, x.1, Up), Period(cells, State(x.0, x.1, Up)));
    }
  }

  lemma {:induction false} MarkedFacts(cells: set<int>, starts: seq<(int, int)>)
    ensures Closed(cells, Marked(cells, starts))
    ensures forall a, b :: (a, b) in Marked(cells, starts) ==> UpArrow(cells, a, b)
  {
    if starts != [] {
      var x := starts[|starts| - 1];
      MarkedFacts(cells, starts[..|starts| - 1]);
      LapEdges(cells, x);
      if UpArrow(cells, x.0, x.1) {
        TraceClosed(cells, Marked(cells, starts[..|starts| - 1]), State(x.0, x.1, Up));
      }
    }
  }

  /**
   * The up arrows the outline loop of `GenerateSvgPath` starts a walk from
   * before position (i, j), in loop order (column i outer, row j inner): an
   * up arrow not yet marked by an earlier walk starts a new one.
   */
  ghost function Starts(cells: set<int>, i: int, j: int): seq<(int, int)>
    requires 0 <= i <= W && 0 <= j <= H && (i == W ==> j == 0)
    decreases i, j
  {
    if j > 0 then Found(cells, Starts(cells, i, j - 1), i, j - 1)
    else if i > 0 then Starts(cells, i - 1, H)
    else []
  }

  /** What the loop does at position (i, j). */
  ghost function Found(cells: set<int>, starts: seq<(int, int)>, i: int, j: int): seq<(int, int)>
  {
    if (i, j) !in Marked(cells, starts) && UpArrow(cells, i, j) then starts + [(i, j)] else starts
  }

  /** Every start is an up arrow. */
  lemma {:induction false} StartsUp(cells: set<int>, i: int, j: int)
    requires InScan(i, j)
    ensures AllUp(cells, Starts(cells, i, j))
    decreases i, j
  {
    if j > 0 {
      StartsUp(cells, i, j - 1);
      UpStep(cells, i, j);
    } else if i > 0 {
      StartsUp(cells, i - 1, H);
      UpWrap(cells, i);
    }
  }

  lemma UpWrap(cells: set<int>, i: int)
    requires 0 < i <= W && AllUp(cells, Starts(cells, i - 1, H))
    ensures AllUp(cells, Starts(cells, i, 0))
  {
    StartsWrap(cells, i);
  }

  /** Every start in the list is an up arrow. */
  ghost predicate AllUp(cells: set<int>, starts: seq<(int, int)>)
  {
    forall k :: 0 <= k < |starts| ==> UpArrow(cells, starts[k].0, starts[k].1)
  }

  lemma UpStep(cells: set<int>, i: int, j: int)
    requires 0 <= i < W && 0 < j <= H
    requires AllUp(cells, Starts(cells, i, j - 1))
    ensures AllUp(cells, Starts(cells, i, j))
  {
    FoundUp(cells, Starts(cells, i, j - 1), i, j - 1);
  }

  /** A step of the loop starts walks only from up arrows. */
  lemma FoundUp(cells: set<int>, starts: seq<(int, int)>, i: int, j: int)
    requires AllUp(cells, starts)
    ensures AllUp(cells, Found(cells, starts, i, j))
  {
    if (i, j) !in Marked(cells, starts) && UpArrow(cells, i, j) {
      var r := starts + [(i, j)];
      assert forall k :: 0 <= k < |starts| ==> r[k] == starts[k];
    }
  }

  /** The outlines traced from the given starts, in order. */
  ghost function Outlines(cells: set<int>, starts: seq<(int, int)>): (r: seq<seq<XY>>)
    ensures |r| == |starts|
  {
    seq(|starts|, k requires 0 <= k < |starts| => Outline(cells, starts[k]))
  }

  /** The visited array holds exactly the marks in v. */
  ghost predicate Mirrors(visited: array2<bool>, v: set<(int, int)>)
    reads visited
  {
    && visited.Length0 == W && visited.Length1 == H
    && (forall a, b :: 0 <= a < W && 0 <= b < H ==> (visited[a, b] <==> (a, b) in v))
    && (forall a, b :: (a, b) in v ==> 0 <= a < W && 0 <= b < H)
  }

  /**
   * `tracePolygon`: walk the lap from the unmarked up arrow (i0, j0),
   * marking the up arrows it passes, and return its corners.
   */
  method TracePolygon(cells: set<int>, i0: int, j0: int, visited: array2<bool>, ghost v: set<(int, int)>)
      returns (result: seq<XY>)
    requires Mirrors(visited, v) && Closed(cells, v)
    requires UpArrow(cells, i0, j0) && (i0, j0) !in v
    modifies visited
    ensures result == Outline(cells, (i0, j0))
    ensures Mirrors(visited, v + Lap(cells, (i0, j0)))
  {
    ghost var s0 := State(i0, j0, Up);
    ghost var k := 0;
    var i, j, dir := i0, j0, Up;
    result := [];
    var done := false;
    while !done
      invariant !done ==> TraceAt(cells, v, s0, k, visited, i, j, dir, result)
      invariant done ==> result == Outline(cells, (i0, j0)) && Mirrors(visited, v + Lap(cells, (i0, j0)))
      invariant k <= Period(cells, s0)
      decreases Period(cells, s0) - k, if done then 0 else 1
    {
      done, i, j, dir, result := TracePass(cells, visited, i, j, dir, result, v, s0, k);
      if !done {
        k := k + 1;
      }
    }
  }

  /** The state of `tracePolygon` after k passes of its loop. */
  ghost predicate TraceAt(cells: set<int>, v: set<(int, int)>, s0: State, k: nat,
                          visited: array2<bool>, i: int, j: int, dir: Dir, result: seq<XY>)
    reads visited
  {
    && Closed(cells, v) && s0.dir == Up && Boundary(cells, s0) && (s0.i, s0.j) !in v
    && k <= Period(cells, s0) && State(i, j, dir) == Iter(cells, s0, k)
    && result == Corners(cells, s0, k)
    && Mirrors(visited, v + UpsIn(cells, s0, k))
  }

  /**
   * One pass of the loop of `tracePolygon`: stop at a marked up arrow, or
   * mark an up arrow and move on to the next edge.
   */
  method TracePass(cells: set<int>, visited: array2<bool>, i: int, j: int, dir: Dir, result: seq<XY>,
                   ghost v: set<(int, int)>, ghost s0: State, ghost k: nat)
      returns (done: bool, i': int, j': int, dir': Dir, result': seq<XY>)
    requires TraceAt(cells, v, s0, k, visited, i, j, dir, result)
    modifies visited
    ensures done ==> result' == Outline(cells, (s0.i, s0.j)) && Mirrors(visited, v + Lap(cells, (s0.i, s0.j)))
    ensures !done ==> k < Period(cells, s0) && TraceAt(cells, v, s0, k + 1, visited, i', j', dir', result')
  {
    TraceStep(cells, v, s0, k);
    if dir == Up {
      // If we are back at the beginning, the polygon is complete.
      if visited[i, j] {
        return true, i, j, dir, result;
      }
      Mark(visited, i, j, v + UpsIn(cells, s0, k));
    }
    done := false;
    i', j', dir', result' := Advance(cells, i, j, dir, result);
  }

  /**
   * One pass of the loop in `tracePolygon`: the up arrow it reaches is
   * already marked exactly when the lap is complete.
   */
  lemma TraceStep(cells: set<int>, v: set<(int, int)>, s0: State, k: nat)
    requires Closed(cells, v) && s0.dir == Up && Boundary(cells, s0) && (s0.i, s0.j) !in v
    requires k <= Period(cells, s0)
    ensures Boundary(cells, Iter(cells, s0, k))
    ensures k == Period(cells, s0) ==>
      && Iter(cells, s0, k) == s0
      && Corners(cells, s0, k) == Outline(cells, (s0.i, s0.j))
      && UpsIn(cells, s0, k) == Lap(cells, (s0.i, s0.j))
    ensures Iter(cells, s0, k + 1) == Next(cells, Iter(cells, s0, k))
    ensures Corners(cells, s0, k + 1) == Corners(cells, s0, k) + Emitted(cells, Iter(cells, s0, k))
    ensures Iter(cells, s0, k).dir == Up ==>
      v + UpsIn(cells, s0, k + 1) == v + UpsIn(cells, s0, k) + {(Iter(cells, s0, k).i, Iter(cells, s0, k).j)}
    ensures Iter(cells, s0, k).dir != Up ==> UpsIn(cells, s0, k + 1) == UpsIn(cells, s0, k)
    ensures 0 <= Iter(cells, s0, k).i <= W && 0 <= Iter(cells, s0, k).j <= H
    ensures Iter(cells, s0, k).dir == Up ==> Iter(cells, s0, k).i < W && Iter(cells, s0, k).j < H
    ensures Iter(cells, s0, k).dir == Up ==>
      ((Iter(cells, s0, k).i, Iter(cells, s0, k).j) in v + UpsIn(cells, s0, k) <==> k == Period(cells, s0))
  {
    IterBoundary(cells, s0, k);
    IterSnoc(cells, s0, k);
    var t := Iter(cells, s0, k);
    if k < Period(cells, s0) && t.dir == Up {
      TraceFresh(cells, v, s0, k);
    } else if k == Period(cells, s0) {
      UpsInHas(cells, s0, k, 0);
    }
  }

  /** `visitedUpArrow[i][j] = true`. */
  method Mark(visited: array2<bool>, i: int, j: int, ghost v: set<(int, int)>)
    requires Mirrors(visited, v) && 0 <= i < W && 0 <= j < H
    modifies visited
    ensures Mirrors(visited, v + {(i, j)})
  {
    visited[i, j] := true;
  }

  /**
   * The moves of the `switch (dir)` in `tracePolygon`: go on to the next
   * edge, recording the corner when the direction changes.
   */
  method Advance(cells: set<int>, i: int, j: int, dir: Dir, result: seq<XY>)
      returns (i': int, j': int, dir': Dir, result': seq<XY>)
    ensures State(i', j', dir') == Next(cells, State(i, j, dir))
    ensures result' == result + Emitted(cells, State(i, j, dir))
  {
    i', j', dir', result' := i, j, dir, result;
    match dir {
      case Up =>
        if !Get(cells, i', j' - 1) {
          result' := result' + [XY(i', j')];
          dir' := Right;
        } else if Get(cells, i' - 1, j' - 1) {
          result' := result' + [XY(i', j')];
          dir' := Left;
          i' := i' - 1;
        } else {
          j' := j' - 1;
        }
      case Down =>
        j' := j' + 1;
        if !Get(cells, i' - 1, j') {
          result' := result' + [XY(i', j')];
          dir' := Left;
          i' := i' - 1;
        } else if Get(cells, i', j') {
          result' := result' + [XY(i', j')];
          dir' := Right;
        }
      case Left =>
        if !Get(cells, i' - 1, j' - 1) {
          result' := result' + [XY(i', j')];
          dir' := Up;
          j' := j' - 1;
        } else if Get(cells, i' - 1, j') {
          result' := result' + [XY(i', j')];
          dir' := Down;
        } else {
          i' := i' - 1;
        }
      case Right =>
        i' := i' + 1;
        if !Get(cells, i', j') {
          result' := result' + [XY(i', j')];
          dir' := Down;
        } else if Get(cells, i', j' - 1) {
          result' := result' + [XY(i', j')];
          dir' := Up;
          j' := j' - 1;
        }
    }
  }

  /** The outline loop of `GenerateSvgPath`. */
  method CollectOutlines(cells: set<int>) returns (outlines: seq<seq<XY>>)
    ensures outlines == Outlines(cells, Starts(cells, W, 0))
  {
    outlines := [];
    var visitedUpArrow := new bool[W, H]((_, _) => false);
    ghost var starts: seq<(int, int)> := [];
    assert Marked(cells, starts) == {};
    for i := 0 to W
      invariant ScanIs(cells, i, 0, outlines, starts, visitedUpArrow)
    {
      outlines, starts := ScanColumn(cells, i, visitedUpArrow, outlines, starts);
      assert Starts(cells, i + 1, 0) == Starts(cells, i, H);
    }
  }

  /** The inner loop over one column of positions. */
  method ScanColumn(cells: set<int>, i: int, visitedUpArrow: array2<bool>, outlines: seq<seq<XY>>, ghost starts: seq<(int, int)>)
      returns (outlines': seq<seq<XY>>, ghost starts': seq<(int, int)>)
    requires 0 <= i < W
    requires ScanIs(cells, i, 0, outlines, starts, visitedUpArrow)
    modifies visitedUpArrow
    ensures ScanIs(cells, i, H, outlines', starts', visitedUpArrow)
  {
    outlines', starts' := outlines, starts;
    for j := 0 to H
      invariant ScanIs(cells, i, j, outlines', starts', visitedUpArrow)
    {
      outlines', starts' := Visit(cells, i, j, visitedUpArrow, outlines', starts');
    }
  }

  /** The state of the outline loop before position (i, j). */
  ghost predicate ScanIs(cells: set<int>, i: int, j: int, outlines: seq<seq<XY>>, starts: seq<(int, int)>, visited: array2<bool>)
    reads visited
  {
    && 0 <= i <= W && 0 <= j <= H && (i == W ==> j == 0)
    && starts == Starts(cells, i, j)
    && outlines == Outlines(cells, starts)
    && Mirrors(visited, Marked(cells, starts))
  }

  /** One grid position of the outline loop: an unmarked up arrow starts a new outline. */
  method Visit(cells: set<int>, i: int, j: int, visitedUpArrow: array2<bool>, outlines: seq<seq<XY>>, ghost starts: seq<(int, int)>)
      returns (outlines': seq<seq<XY>>, ghost starts': seq<(int, int)>)
    requires 0 <= i < W && 0 <= j < H
    requires ScanIs(cells, i, j, outlines, starts, visitedUpArrow)
    modifies visitedUpArrow
    ensures ScanIs(cells, i, j + 1, outlines', starts', visitedUpArrow)
  {
    MarkedFacts(cells, starts);
    outlines', starts' := outlines, starts;
    if !visitedUpArrow[i, j] && Get(cells, i, j) && !Get(cells, i - 1, j) {
      assert UpArrow(cells, i, j);
      var outline := TracePolygon(cells, i, j, visitedUpArrow, Marked(cells, starts));
      outlines' := outlines + [outline];
      starts' := starts + [(i, j)];
      assert starts'[..|starts'| - 1] == starts;
      OutlinesSnoc(cells, starts, (i, j));
    }
  }

  lemma OutlinesSnoc(cells: set<int>, starts: seq<(int, int)>, x: (int, int))
    ensures Outlines(cells, starts + [x]) == Outlines(cells, starts) + [Outline(cells, x)]
  {
    var starts' := starts + [x];
    assert forall k :: 0 <= k < |starts| ==> starts'[k] == starts[k];
  }

  /** Every outline is a closed rectilinear polygon. */
  lemma OutlineIsClosed(cells: set<int>, x: (int, int))
    requires UpArrow(cells, x.0, x.1)
    ensures ClosedRectilinear(Outline(cells, x))
  {
    var s := State(x.0, x.1, Up);
    OutlineShape(cells, s, Period(cells, s));
  }

  /** Each outline the loop collects is closed and rectilinear. */
  lemma ScanShapes(cells: set<int>)
    ensures var r := Outlines(cells, Starts(cells, W, 0));
      forall k :: 0 <= k < |r| ==> ClosedRectilinear(r[k])
  {
    var starts := Starts(cells, W, 0);
    StartsUp(cells, W, 0);
    forall k | 0 <= k < |starts|
      ensures ClosedRectilinear(Outlines(cells, starts)[k])
    {
      OutlineIsClosed(cells, starts[k]);
    }
  }

  /** A lap starts where it ends: its first arrow is marked by it. */
  lemma LapHasStart(cells: set<int>, x: (int, int))
    requires UpArrow(cells, x.0, x.1)
    ensures x in Lap(cells, x)
  {
    var s := State(x.0, x.1, Up);
    var p := Period(cells, s);
    assert Iter(cells, s, 0) == s && 0 < p;
    UpsInHas(cells, s, p, 0);
  }

  /** A lap from an unmarked arrow touches none of the closed marks. */
  lemma LapFresh(cells: set<int>, v: set<(int, int)>, x: (int, int))
    requires Closed(cells, v) && UpArrow(cells, x.0, x.1) && x !in v
    ensures Lap(cells, x) !! v
  {
    var s := State(x.0, x.1, Up);
    var p := Period(cells, s);
    forall e | e in Lap(cells, x)
      ensures e !in v
    {
      var m := UpsInWitness(cells, s, p, e.0, e.1);
      TraceFresh(cells, v, s, m);
    }
  }

  lemma {:induction false} MarkedHoldsLaps(cells: set<int>, starts: seq<(int, int)>)
    ensures forall k :: 0 <= k < |starts| ==> Lap(cells, starts[k]) <= Marked(cells, starts)
  {
    if starts != [] {
      var init := starts[..|starts| - 1];
      MarkedHoldsLaps(cells, init);
      assert forall k :: 0 <= k < |init| ==> starts[k] == init[k];
    }
  }

  /** One step of the loop keeps the marks made so far and marks the arrow it visits. */
  lemma FoundMarks(cells: set<int>, starts: seq<(int, int)>, x: (int, int))
    ensures Marked(cells, starts) <= Marked(cells, Found(cells, starts, x.0, x.1))
    ensures UpArrow(cells, x.0, x.1) ==> x in Marked(cells, Found(cells, starts, x.0, x.1))
  {
    if x !in Marked(cells, starts) && UpArrow(cells, x.0, x.1) {
      LapHasStart(cells, x);
      assert (starts + [x])[..|starts|] == starts;
    }
  }

  /** The laps from the starts are pairwise disjoint. */
  ghost predicate LapsDisjoint(cells: set<int>, starts: seq<(int, int)>)
  {
    forall k, l :: 0 <= k < l < |starts| ==> Lap(cells, starts[k]) !! Lap(cells, starts[l])
  }

  /** One step of the loop keeps the laps of the starts pairwise disjoint. */
  lemma FoundDisjoint(cells: set<int>, starts: seq<(int, int)>, x: (int, int))
    requires LapsDisjoint(cells, starts)
    ensures LapsDisjoint(cells, Found(cells, starts, x.0, x.1))
  {
    if x !in Marked(cells, starts) && UpArrow(cells, x.0, x.1) {
      MarkedFacts(cells, starts);
      MarkedHoldsLaps(cells, starts);
      LapFresh(cells, Marked(cells, starts), x);
      var starts' := starts + [x];
      assert forall k :: 0 <= k < |starts| ==> starts'[k] == starts[k];
    }
  }

  lemma DisjointStep(cells: set<int>, i: int, j: int)
    requires 0 <= i < W && 0 < j <= H
    requires LapsDisjoint(cells, Starts(cells, i, j - 1))
    ensures LapsDisjoint(cells, Starts(cells, i, j))
  {
    FoundDisjoint(cells, Starts(cells, i, j - 1), (i, j - 1));
  }

  /** Finishing column i - 1 is starting column i. */
  lemma StartsWrap(cells: set<int>, i: int)
    requires 0 < i <= W
    ensures Starts(cells, i, 0) == Starts(cells, i - 1, H)
  {
  }

  /** Position (a, b) comes before (i, j) in the loop order. */
  predicate Before(a: int, b: int, i: int, j: int)
  {
    a < i || (a == i && b < j)
  }

  /** Every up arrow before (i, j) has been marked. */
  lemma {:induction false} ScanCovers(cells: set<int>, i: int, j: int)
    requires InScan(i, j)
    ensures Covers(cells, Starts(cells, i, j), i, j)
    decreases i, j
  {
    if j > 0 {
      ScanCovers(cells, i, j - 1);
      CoversAt(cells, i, j);
    } else if i > 0 {
      ScanCovers(cells, i - 1, H);
      CoversWrap(cells, i);
    }
  }

  lemma CoversWrap(cells: set<int>, i: int)
    requires 0 < i <= W && Covers(cells, Starts(cells, i - 1, H), i - 1, H)
    ensures Covers(cells, Starts(cells, i, 0), i, 0)
  {
    StartsWrap(cells, i);
  }

  /** Every up arrow before (i, j) is among the marks. */
  ghost predicate Covers(cells: set<int>, starts: seq<(int, int)>, i: int, j: int)
  {
    forall a, b :: Before(a, b, i, j) && UpArrow(cells, a, b) ==> (a, b) in Marked(cells, starts)
  }

  lemma CoversAt(cells: set<int>, i: int, j: int)
    requires 0 <= i < W && 0 < j <= H
    requires Covers(cells, Starts(cells, i, j - 1), i, j - 1)
    ensures Covers(cells, Starts(cells, i, j), i, j)
  {
    CoversStep(cells, Starts(cells, i, j - 1), i, j);
  }

  lemma CoversStep(cells: set<int>, starts: seq<(int, int)>, i: int, j: int)
    requires Covers(cells, starts, i, j - 1)
    ensures Covers(cells, Found(cells, starts, i, j - 1), i, j)
  {
    FoundMarks(cells, starts, (i, j - 1));
  }

  /** A position of the outline loop: column i, row j, or just past the last column. */
  predicate InScan(i: int, j: int)
  {
    0 <= i <= W && 0 <= j <= H && (i == W ==> j == 0)
  }

  /**
   * The laps of the collected outlines are pairwise disjoint: each up arrow
   * is marked by one outline only.
   */
  lemma {:induction false} ScanDisjoint(cells: set<int>, i: int, j: int)
    requires InScan(i, j)
    ensures LapsDisjoint(cells, Starts(cells, i, j))
    decreases i, j
  {
    if j > 0 {
      ScanDisjoint(cells, i, j - 1);
      DisjointStep(cells, i, j);
    } else if i > 0 {
      ScanDisjoint(cells, i - 1, H);
      DisjointWrap(cells, i);
    }
  }

  lemma DisjointWrap(cells: set<int>, i: int)
    requires 0 < i <= W && LapsDisjoint(cells, Starts(cells, i - 1, H))
    ensures LapsDisjoint(cells, Starts(cells, i, 0))
  {
    StartsWrap(cells, i);
  }

  /** After the whole grid, the marks are exactly the up arrows. */
  lemma AllArrowsMarked(cells: set<int>)
    ensures forall a, b :: (a, b) in Marked(cells, Starts(cells, W, 0)) <==> UpArrow(cells, a, b)
  {
    MarkedFacts(cells, Starts(cells, W, 0));
    ScanCovers(cells, W, 0);
  }

  /** Rows j0..j1 of column i hold no up arrow: the loop state is unchanged across them. */
  lemma {:induction false} SkipRows(cells: set<int>, i: int, j0: int, j1: int)
    requires 0 <= i < W && 0 <= j0 <= j1 <= H
    requires forall b :: j0 <= b < j1 ==> !UpArrow(cells, i, b)
    ensures Starts(cells, i, j1) == Starts(cells, i, j0)
    decreases j1
  {
    if j0 < j1 {
      SkipRows(cells, i, j0, j1 - 1);
    }
  }

  /** Columns i0..i1 hold no up arrow: the loop state is unchanged across them. */
  lemma {:induction false} SkipColumns(cells: set<int>, i0: int, i1: int)
    requires 0 <= i0 <= i1 <= W
    requires forall a, b :: i0 <= a < i1 ==> !UpArrow(cells, a, b)
    ensures Starts(cells, i1, 0) == Starts(cells, i0, 0)
    decreases i1
  {
    if i0 < i1 {
      SkipColumns(cells, i0, i1 - 1);
      SkipRows(cells, i1 - 1, 0, H);
    }
  }

  /** An empty cell set has no outlines. */
  lemma NoCellsNoOutlines()
    ensures Outlines({}, Starts({}, W, 0)) == []
  {
    SkipColumns({}, 0, W);
  }

  lemma LapOf(cells: set<int>, x: (int, int), p: nat, corners: seq<XY>, marks: set<(int, int)>)
    requires UpArrow(cells, x.0, x.1) && p >= 1
    requires Iter(cells, State(x.0, x.1, Up), p) == State(x.0, x.1, Up)
    requires forall m :: 1 <= m < p ==> Iter(cells, State(x.0, x.1, Up), m) != State(x.0, x.1, Up)
    requires Corners(cells, State(x.0, x.1, Up), p) == corners
    requires UpsIn(cells, State(x.0, x.1, Up), p) == marks
    ensures Outline(cells, x) == corners && Lap(cells, x) == marks
  {
    var s := State(x.0, x.1, Up);
    var q := Period(cells, s);
  }

  /** The lap from (0, 0) when cells 0 and 7 are filled. */
  lemma FirstSquare()
    ensures Outline({0, 7}, (0, 0)) == [XY(0, 0), XY(1, 0), XY(1, 1), XY(0, 1)]
    ensures Lap({0, 7}, (0, 0)) == {(0, 0)}
  {
    var cells, s := {0, 7}, State(0, 0, Up);
    assert Iter(cells, s, 1) == State(0, 0, Right);
    assert Iter(cells, s, 2) == State(1, 0, Down);
    assert Iter(cells, s, 3) == State(0, 1, Left);
    assert Iter(cells, s, 4) == s;
    LapOf(cells, (0, 0), 4, [XY(0, 0), XY(1, 0), XY(1, 1), XY(0, 1)], {(0, 0)});
  }

  /** The lap from (1, 1) when cells 0 and 7 are filled. */
  lemma SecondSquare()
    ensures Outline({0, 7}, (1, 1)) == [XY(1, 1), XY(2, 1), XY(2, 2), XY(1, 2)]
  {
    var cells, t := {0, 7}, State(1, 1, Up);
    assert Iter(cells, t, 1) == State(1, 1, Right);
    assert Iter(cells, t, 2) == State(2, 1, Down);
    assert Iter(cells, t, 3) == State(1, 2, Left);
    assert Iter(cells, t, 4) == t;
    LapOf(cells, (1, 1), 4, [XY(1, 1), XY(2, 1), XY(2, 2), XY(1, 2)], {(1, 1)});
  }

  /** Cells 0 and 7 are the grid positions (0, 0) and (1, 1). */
  lemma DiagonalGet(a: int, b: int)
    ensures Get({0, 7}, a, b) <==> (a == 0 && b == 0) || (a == 1 && b == 1)
  {
    var cells := {0, 7};
    assert a + W * b in cells <==> a + W * b == 0 || a + W * b == 7;
  }

  /** Column 0 of the example: one walk, from (0, 0). */
  lemma DiagonalColumnZero()
    ensures Starts({0, 7}, 1, 0) == [(0, 0)]
  {
    var cells := {0, 7};
    DiagonalGet(0, 0);
    DiagonalGet(-1, 0);
    assert Starts(cells, 0, 1) == [(0, 0)];
    forall b | 1 <= b < H
      ensures !UpArrow(cells, 0, b)
    {
      DiagonalGet(0, b);
    }
    SkipRows(cells, 0, 1, H);
  }

  /** Column 1 of the example: a second walk, from (1, 1), which the first did not mark. */
  lemma DiagonalColumnOne()
    ensures Starts({0, 7}, 2, 0) == [(0, 0), (1, 1)]
  {
    var cells := {0, 7};
    DiagonalColumnOneTop();
    forall b | 2 <= b < H
      ensures !UpArrow(cells, 1, b)
    {
      DiagonalGet(1, b);
    }
    SkipRows(cells, 1, 2, H);
  }

  /** Rows 0 and 1 of column 1 add the walk from (1, 1). */
  lemma DiagonalColumnOneTop()
    ensures Starts({0, 7}, 1, 2) == [(0, 0), (1, 1)]
  {
    DiagonalColumnOneRowZero();
    FoundDiag();
  }

  /** At (1, 1) the loop finds an up arrow that the lap from (0, 0) did not mark. */
  lemma FoundDiag()
    ensures Found({0, 7}, [(0, 0)], 1, 1) == [(0, 0), (1, 1)]
  {
    var cells := {0, 7};
    FirstSquare();
    assert Marked(cells, [(0, 0)]) == {(0, 0)};
    DiagonalGet(1, 1);
    DiagonalGet(0, 1);
  }

  /** Row 0 of column 1 adds nothing. */
  lemma DiagonalColumnOneRowZero()
    ensures Starts({0, 7}, 1, 1) == [(0, 0)]
  {
    DiagonalColumnZero();
    DiagonalGet(1, 0);
    SkipRows({0, 7}, 1, 0, 1);
  }

  /** The loop starts walks at (0, 0) and (1, 1) only when cells 0 and 7 are filled. */
  lemma DiagonalStarts()
    ensures Starts({0, 7}, W, 0) == [(0, 0), (1, 1)]
  {
    var cells := {0, 7};
    DiagonalColumnOne();
    forall a, b | 2 <= a < W
      ensures !UpArrow(cells, a, b)
    {
      DiagonalGet(a, b);
    }
    SkipColumns(cells, 2, W);
  }

  /**
   * Two cells that touch only at a corner, (0, 0) and (1, 1), give two
   * separate square outlines: the right turn at the shared corner is taken
   * first, so the walks never cross.
   */
  lemma DiagonalCellsStaySeparate()
    ensures Outlines({0, 7}, Starts({0, 7}, W, 0)) == [
      [XY(0, 0), XY(1, 0), XY(1, 1), XY(0, 1)],
      [XY(1, 1), XY(2, 1), XY(2, 2), XY(1, 2)]]
  {
    DiagonalStarts();
    FirstSquare();
    SecondSquare();
  }
}
