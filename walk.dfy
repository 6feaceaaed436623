/**
 * The bishop's walk (get_position and get_room as functions of the moves):
 * clamped steps, the visit counts, and the start and end sentinels.
 */
module Walk {
  import opened Moves

  /** A cell (x, y) of the room; x grows to the right, y downwards. */
  type Cell = (int, int)

  /** The room as get_room returns it: a Counter from cells to counts. */
  type Room = map<Cell, int>

  predicate InRoom(size: (int, int), c: Cell) {
    0 <= c.0 < size.0 && 0 <= c.1 < size.1
  }

  function Min(a: int, b: int): int {
    if a <= b then a else b
  }

  function Max(a: int, b: int): int {
    if a >= b then a else b
  }

  /** The cell a move aims at, before any clamping. */
  function Target(position: Cell, move: Move): Cell {
    (position.0 + Delta(move).0, position.1 + Delta(move).1)
  }

  /**
   * get_position: each coordinate is clamped on its own, first to the largest
   * index (size - 1) with min, then to 0 with max. The bishop stops at a wall.
   */
  function GetPosition(size: (int, int), position: Cell, move: Move): (r: Cell)
    ensures size.0 >= 1 && size.1 >= 1 ==> InRoom(size, r)
    ensures InRoom(size, Target(position, move)) ==> r == Target(position, move)
  {
    var (x, y) := position;
    var (dirX, dirY) := Delta(move);
    var (maxX, maxY) := (size.0 - 1, size.1 - 1);
    var (newX, newY) := (Min(x + dirX, maxX), Min(y + dirY, maxY));
    (Max(newX, 0), Max(newY, 0))
  }

  /**
   * Stopping, not bouncing: on an axis where the target lies beyond a wall,
   * the coordinate is that wall's; with no room on an axis it is 0.
   */
  lemma StopsAtWall(size: (int, int), position: Cell, move: Move)
    ensures var (t, r) := (Target(position, move), GetPosition(size, position, move));
      && (t.0 < 0 ==> r.0 == 0)
      && (size.0 >= 1 && t.0 >= size.0 ==> r.0 == size.0 - 1)
      && (t.1 < 0 ==> r.1 == 0)
      && (size.1 >= 1 && t.1 >= size.1 ==> r.1 == size.1 - 1)
      && (size.0 <= 0 ==> r.0 == 0)
      && (size.1 <= 0 ==> r.1 == 0)
  {
  }

  /** Each output coordinate depends only on its own coordinate, delta and dimension. */
  lemma AxesIndependent(size: (int, int), p: Cell, m: Move, size': (int, int), p': Cell, m': Move)
    ensures size.0 == size'.0 && p.0 == p'.0 && Delta(m).0 == Delta(m').0 ==>
      GetPosition(size, p, m).0 == GetPosition(size', p', m').0
    ensures size.1 == size'.1 && p.1 == p'.1 && Delta(m).1 == Delta(m').1 ==>
      GetPosition(size, p, m).1 == GetPosition(size', p', m').1
  {
  }

  /** The examples of the clamping rule: NW from a corner stays, NW along the left wall slides up. */
  lemma ClampExamples(size: (int, int))
    requires size.0 >= 1 && size.1 >= 6
    ensures GetPosition(size, (0, 0), NW) == (0, 0)
    ensures GetPosition(size, (0, 5), NW) == (0, 4)
  {
  }

  // ------------------------------------------------------------------ the walk

  /** current_position after a trail of visited cells: the last one, or the start. */
  function CurrentPosition(start: Cell, trail: seq<Cell>): Cell {
    if trail == [] then start else trail[|trail| - 1]
  }

  /** The cells the bishop lands on, one per move, in order. */
  function Trail(size: (int, int), start: Cell, moves: seq<Move>): (t: seq<Cell>)
    ensures |t| == |moves|
  {
    if moves == [] then []
    else
      var t := Trail(size, start, moves[..|moves| - 1]);
      t + [GetPosition(size, CurrentPosition(start, t), moves[|moves| - 1])]
  }

  /** Each landing cell is one clamped step from the cell before it (the start for the first). */
  lemma {:induction false} TrailStep(size: (int, int), start: Cell, moves: seq<Move>, i: nat)
    requires i < |moves|
    ensures Trail(size, start, moves)[i] ==
      GetPosition(size, if i == 0 then start else Trail(size, start, moves)[i - 1], moves[i])
  {
    var init := moves[..|moves| - 1];
    var t0 := Trail(size, start, init);
    var t := Trail(size, start, moves);
    assert t == t0 + [GetPosition(size, CurrentPosition(start, t0), moves[|moves| - 1])];
    if i < |moves| - 1 {
      TrailStep(size, start, init, i);
      assert t[i] == t0[i] && moves[i] == init[i];
      if i > 0 {
        assert t[i - 1] == t0[i - 1];
      }
    } else if i > 0 {
      assert t[i - 1] == t0[|t0| - 1];
    }
  }

  /** Where the walk ends. */
  function EndOf(size: (int, int), start: Cell, moves: seq<Move>): Cell {
    CurrentPosition(start, Trail(size, start, moves))
  }

  /** Every landing cell is in the room, whatever the start. */
  lemma TrailInRoom(size: (int, int), start: Cell, moves: seq<Move>)
    requires size.0 >= 1 && size.1 >= 1
    ensures forall i :: 0 <= i < |moves| ==> InRoom(size, Trail(size, start, moves)[i])
    ensures moves != [] ==> InRoom(size, EndOf(size, start, moves))
  {
    forall i | 0 <= i < |moves| {
      TrailStep(size, start, moves, i);
    }
  }

  // ------------------------------------------------------------ the counter

  /** Counter lookup: an absent cell counts 0. */
  function Count(room: Room, c: Cell): int {
    if c in room then room[c] else 0
  }

  /** Writing v into cell c (room[c] = v or room[c] += 1) changes the count of c alone. */
  lemma CountUpdate(room: Room, c: Cell, d: Cell, v: int)
    ensures Count(room[c := v], c) == v
    ensures d != c ==> Count(room[c := v], d) == Count(room, d)
    ensures Count(map[], d) == 0
  {
  }

  /** The counts the loop of get_room builds: room[cell] += 1 for every landing cell. */
  function Tally(cells: seq<Cell>): (room: Room)
    ensures forall c :: c in room <==> c in cells
    ensures forall c :: c in room ==> room[c] >= 1
  {
    if cells == [] then map[]
    else
      var room := Tally(cells[..|cells| - 1]);
      var c := cells[|cells| - 1];
      room[c := Count(room, c) + 1]
  }

  lemma TallySnoc(cells: seq<Cell>, c: Cell)
    ensures Tally(cells + [c]) == Tally(cells)[c := Count(Tally(cells), c) + 1]
  {
    assert (cells + [c])[..|cells|] == cells;
  }

  /** Before the sentinels, each cell's count is the number of steps that landed on it. */
  lemma {:induction false} TallyCounts(cells: seq<Cell>, c: Cell)
    ensures Count(Tally(cells), c) == multiset(cells)[c]
  {
    if cells != [] {
      var init := cells[..|cells| - 1];
      TallyCounts(init, c);
      assert cells == init + [cells[|cells| - 1]];
    }
  }

  /** get_room for a decoded walk: the counts, then start := 15, then end := 16. */
  function RoomOf(size: (int, int), start: Cell, moves: seq<Move>): (room: Room)
    ensures forall c :: c in room <==> c == start || c in Trail(size, start, moves)
  {
    var trail := Trail(size, start, moves);
    Tally(trail)[start := 15][CurrentPosition(start, trail) := 16]
  }

  /**
   * Sentinel precedence: the end cell holds 16, the start cell 15 unless it is
   * also the end, and every other cell keeps its visit count.
   */
  lemma RoomSentinels(size: (int, int), start: Cell, moves: seq<Move>, c: Cell)
    ensures Count(RoomOf(size, start, moves), EndOf(size, start, moves)) == 16
    ensures Count(RoomOf(size, start, moves), start) ==
      if start == EndOf(size, start, moves) then 16 else 15
    ensures c != start && c != EndOf(size, start, moves) ==>
      Count(RoomOf(size, start, moves), c) == multiset(Trail(size, start, moves))[c]
  {
    TallyCounts(Trail(size, start, moves), c);
  }

  /** With no moves the only entry is the start, holding 16. */
  lemma EmptyWalk(size: (int, int), start: Cell)
    ensures RoomOf(size, start, []) == map[start := 16]
  {
  }

  /** get_position axis by axis: min with the largest index, then max with 0. */
  lemma GetPositionAxes(size: (int, int), p: Cell, m: Move)
    ensures GetPosition(size, p, m).0 == Max(Min(p.0 + Delta(m).0, size.0 - 1), 0)
    ensures GetPosition(size, p, m).1 == Max(Min(p.1 + Delta(m).1, size.1 - 1), 0)
  {
  }

  /** On one axis: a step from inside the room that would leave it is clamped back to where it started. */
  lemma ClampStays(v: int, d: int, n: int)
    requires 0 <= v < n && (d == -1 || d == 1)
    requires v + d < 0 || v + d >= n
    ensures Max(Min(v + d, n - 1), 0) == v
  {
  }

  /** A move aimed outward on both axes from a corner of the room leaves the bishop in that corner. */
  lemma CornerStays(size: (int, int), corner: Cell, m: Move)
    requires InRoom(size, corner)
    requires Target(corner, m).0 < 0 || Target(corner, m).0 >= size.0
    requires Target(corner, m).1 < 0 || Target(corner, m).1 >= size.1
    ensures GetPosition(size, corner, m) == corner
  {
    GetPositionAxes(size, corner, m);
    ClampStays(corner.0, Delta(m).0, size.0);
    ClampStays(corner.1, Delta(m).1, size.1);
  }

  /** Two such moves from a corner land on the corner twice, and the corner is counted twice. */
  lemma CornerWalk(size: (int, int), corner: Cell, m: Move)
    requires InRoom(size, corner)
    requires Target(corner, m).0 < 0 || Target(corner, m).0 >= size.0
    requires Target(corner, m).1 < 0 || Target(corner, m).1 >= size.1
    ensures Trail(size, corner, [m, m]) == [corner, corner]
    ensures Count(Tally(Trail(size, corner, [m, m])), corner) == 2
  {
    CornerStays(size, corner, m);
    var t2 := Trail(size, corner, [m, m]);
    assert Trail(size, corner, [m]) == [corner] by {
      assert [m][..0] == [];
    }
    assert t2 == [corner, corner] by {
      assert [m, m][..1] == [m];
    }
    assert multiset(t2)[corner] == 2;
    TallyCounts(t2, corner);
  }

  // ------------------------------------------------------------ conservation

  /** The counts of row y over the columns 0..n-1. */
  function RowSum(room: Room, y: int, n: int): int {
    if n <= 0 then 0 else RowSum(room, y, n - 1) + Count(room, (n - 1, y))
  }

  /** The counts of the rows 0..n-1 of a room w columns wide. */
  function GridSum(room: Room, w: int, n: int): int {
    if n <= 0 then 0 else GridSum(room, w, n - 1) + RowSum(room, n - 1, w)
  }

  lemma {:induction false} RowSumEmpty(y: int, n: int)
    ensures RowSum(map[], y, n) == 0
  {
    if n > 0 { RowSumEmpty(y, n - 1); }
  }

  lemma {:induction false} GridSumEmpty(w: int, n: int)
    ensures GridSum(map[], w, n) == 0
  {
    if n > 0 {
      GridSumEmpty(w, n - 1);
      RowSumEmpty(n - 1, w);
    }
  }

  lemma {:induction false} RowSumBump(room: Room, c: Cell, y: int, n: int)
    ensures RowSum(room[c := Count(room, c) + 1], y, n) ==
      RowSum(room, y, n) + (if c.1 == y && 0 <= c.0 < n then 1 else 0)
  {
    if n > 0 { RowSumBump(room, c, y, n - 1); }
  }

  lemma {:induction false} GridSumBump(room: Room, c: Cell, w: int, n: int)
    ensures GridSum(room[c := Count(room, c) + 1], w, n) ==
      GridSum(room, w, n) + (if 0 <= c.0 < w && 0 <= c.1 < n then 1 else 0)
  {
    if n > 0 {
      GridSumBump(room, c, w, n - 1);
      RowSumBump(room, c, n - 1, w);
    }
  }

  lemma {:induction false} TallySum(size: (int, int), cells: seq<Cell>)
    requires forall i :: 0 <= i < |cells| ==> InRoom(size, cells[i])
    ensures GridSum(Tally(cells), size.0, size.1) == |cells|
  {
    if cells == [] {
      GridSumEmpty(size.0, size.1);
    } else {
      var init := cells[..|cells| - 1];
      TallySum(size, init);
      GridSumBump(Tally(init), cells[|cells| - 1], size.0, size.1);
    }
  }

  /** Count conservation: before the sentinels, the counts over the room add up to the number of moves. */
  lemma WalkConservation(size: (int, int), start: Cell, moves: seq<Move>)
    requires size.0 >= 1 && size.1 >= 1
    ensures GridSum(Tally(Trail(size, start, moves)), size.0, size.1) == |moves|
  {
    TrailInRoom(size, start, moves);
    TallySum(size, Trail(size, start, moves));
  }
}
