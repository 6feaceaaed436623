/**
 * The RandomArt object: a label, a room size and a start cell fixed at
 * construction, and the imperative get_room, display and __call__.
 */
module Art {
  import opened Wrappers
  import opened Moves
  import opened Glyphs
  import opened Walk
  import opened Layout

  /** DEFAULT_ROOM_SIZE: 17 columns, 9 rows. */
  const DefaultRoomSize: (int, int) := (17, 9)

  /**
   * The start __init__ picks when none is given: each dimension floor-divided
   * by 2 (Dafny's division by 2 floors like Python's //, negatives included).
   */
  function DefaultStart(roomSize: (int, int)): (c: Cell)
    ensures roomSize.0 >= 1 && roomSize.1 >= 1 ==> InRoom(roomSize, c)
    ensures 0 <= roomSize.0 - 2 * c.0 <= 1 && 0 <= roomSize.1 - 2 * c.1 <= 1
  {
    (roomSize.0 / 2, roomSize.1 / 2)
  }

  /** The whole pipeline of __call__ as a function: decode, walk, render. */
  function ArtOf(hashalg: Option<string>, roomSize: (int, int), start: Cell, hex: string): (r: Result<string, DecodeError>)
    requires IsHexString(hex)
    ensures r.Ok? <==> |hex| % 2 == 0
    ensures r.Err? ==> r.error == OddLength
  {
    match Decode(hex)
    case Err(e) => Err(e)
    case Ok(moves) => Ok(Render(roomSize, RoomOf(roomSize, start, moves), hashalg))
  }

  class RandomArt {
    /** The label of the bottom border (the hash algorithm's name); None or "" for none. */
    const hashalg: Option<string>
    const roomSize: (int, int)
    const start: Cell

    /** __init__: nothing is validated; the start defaults to the centre. */
    constructor (hashalg: Option<string> := Some(""), roomSize: (int, int) := DefaultRoomSize, start: Option<Cell> := None)
      ensures this.hashalg == hashalg && this.roomSize == roomSize
      ensures this.start == if start.Some? then start.value else DefaultStart(roomSize)
    {
      this.hashalg := hashalg;
      this.roomSize := roomSize;
      this.start := if start.Some? then start.value else DefaultStart(roomSize);
    }

    /**
     * get_room: count every landing cell while walking the decoded moves, then
     * write 15 over the start cell and 16 over the end cell, in that order.
     */
    method GetRoom(hex: string) returns (r: Result<Room, DecodeError>)
      requires IsHexString(hex)
      ensures r == match Decode(hex)
        case Err(e) => Err(e)
        case Ok(moves) => Ok(RoomOf(roomSize, start, moves))
    {
      var directions := HexToDirs(hex);
      if directions.Err? {
        return Err(directions.error);
      }
      var moves := directions.value;
      var room: Room := map[];
      var currentPosition := start;
      ghost var trail: seq<Cell> := [];
      var i := 0;
      while i < |moves|
        invariant 0 <= i <= |moves|
        invariant trail == Trail(roomSize, start, moves[..i])
        invariant currentPosition == CurrentPosition(start, trail)
        invariant room == Tally(trail)
      {
        ghost var from, before := currentPosition, room;
        currentPosition := GetPosition(roomSize, currentPosition, moves[i]);
        room := room[currentPosition := Count(room, currentPosition) + 1];
        WalkStep(roomSize, start, moves, i, trail, from, before, currentPosition, room);
        trail := trail + [currentPosition];
        i := i + 1;
      }
      assert moves[..i] == moves;
      room := room[start := 15];
      room := room[currentPosition := 16];
      r := Ok(room);
    }

    /** display: the top border, one row per y in order, the bottom border. */
    method Display(room: Room) returns (s: string)
      ensures s == Render(roomSize, room, hashalg)
    {
      var (roomX, roomY) := roomSize;
      var bottom := BottomBorder(roomX, hashalg);
      var top := TopBorder(roomX) + "\n";
      s := "";
      s := s + top;
      var y := 0;
      while y < roomY
        invariant 0 <= y <= Max(roomY, 0)
        invariant s == Terminated([TopBorder(roomX)] + Rows(room, roomX, y))
      {
        var line := s;
        s := s + "|";
        var x := 0;
        while x < roomX
          invariant 0 <= x <= Max(roomX, 0)
          invariant s == line + "|" + RowGlyphs(room, y, x)
        {
          GlyphSnoc(line, room, y, x);
          s := s + [CoinSym(Count(room, (x, y)))];
          x := x + 1;
        }
        s := s + "|\n";
        RowsSnoc(room, roomX, y, line);
        y := y + 1;
      }
      LinesSplit(roomSize, room, hashalg, y);
      s := s + bottom;
    }

    /** __call__: the art for a fingerprint, or the decoding error. */
    method Call(hex: string) returns (r: Result<string, DecodeError>)
      requires IsHexString(hex)
      ensures r == ArtOf(hashalg, roomSize, start, hex)
    {
      var room := GetRoom(hex);
      if room.Err? {
        return Err(room.error);
      }
      var s := Display(room.value);
      r := Ok(s);
    }
  }

  lemma TrailSnoc(size: (int, int), start: Cell, moves: seq<Move>, i: nat)
    requires i < |moves|
    ensures Trail(size, start, moves[..i + 1]) ==
      Trail(size, start, moves[..i]) + [GetPosition(size, CurrentPosition(start, Trail(size, start, moves[..i])), moves[i])]
  {
    assert moves[..i + 1][..i] == moves[..i];
  }

  /** One pass of the loop of get_room keeps the walk and the counts in step with Trail and Tally. */
  lemma WalkStep(size: (int, int), start: Cell, moves: seq<Move>, i: nat, trail: seq<Cell>,
                 position: Cell, room: Room, next: Cell, room': Room)
    requires i < |moves|
    requires trail == Trail(size, start, moves[..i])
    requires position == CurrentPosition(start, trail)
    requires room == Tally(trail)
    requires next == GetPosition(size, position, moves[i])
    requires room' == room[next := Count(room, next) + 1]
    ensures trail + [next] == Trail(size, start, moves[..i + 1])
    ensures next == CurrentPosition(start, trail + [next])
    ensures room' == Tally(trail + [next])
  {
    TallyStep(trail, room, next, room');
    TrailSnoc(size, start, moves, i);
  }

  lemma TallyStep(trail: seq<Cell>, room: Room, next: Cell, room': Room)
    requires room == Tally(trail)
    requires room' == room[next := Count(room, next) + 1]
    ensures room' == Tally(trail + [next])
  {
    TallySnoc(trail, next);
  }

  lemma RowsSnoc(room: Room, w: int, y: nat, line: string)
    requires line == Terminated([TopBorder(w)] + Rows(room, w, y))
    ensures line + "|" + RowGlyphs(room, y, w) + "|\n" == Terminated([TopBorder(w)] + Rows(room, w, y + 1))
  {
    var init := [TopBorder(w)] + Rows(room, w, y);
    var row := Row(room, w, y);
    assert Rows(room, w, y + 1) == Rows(room, w, y) + [row];
    var ls := init + [row];
    assert [TopBorder(w)] + Rows(room, w, y + 1) == ls;
    assert ls[..|ls| - 1] == init;
    assert Terminated(ls) == Terminated(init) + row + "\n";
    RowConcat(line, RowGlyphs(room, y, w));
  }

  /** One more glyph on the row being built. */
  lemma GlyphSnoc(line: string, room: Room, y: int, x: int)
    requires x >= 0
    ensures line + "|" + RowGlyphs(room, y, x) + [CoinSym(Count(room, (x, y)))] == line + "|" + RowGlyphs(room, y, x + 1)
  {
    assert RowGlyphs(room, y, x + 1) == RowGlyphs(room, y, x) + [CoinSym(Count(room, (x, y)))];
  }

  lemma RowConcat(line: string, glyphs: string)
    ensures line + "|" + glyphs + "|\n" == line + ("|" + glyphs + "|") + "\n"
  {
  }

  lemma LinesSplit(size: (int, int), room: Room, hashalg: Option<string>, y: int)
    requires y == Max(size.1, 0)
    ensures Render(size, room, hashalg) ==
      Terminated([TopBorder(size.0)] + Rows(room, size.0, y)) + BottomBorder(size.0, hashalg)
  {
    var ls := Lines(size, room, hashalg);
    assert Rows(room, size.0, y) == Rows(room, size.0, size.1);
    assert ls[..|ls| - 1] == [TopBorder(size.0)] + Rows(room, size.0, y);
  }

  /** Fingerprint "00" decodes to four north-west moves. */
  lemma ZeroByteMoves(h: string)
    requires h == "00"
    ensures IsHexString(h) && Decode(h) == Ok([NW, NW, NW, NW])
  {
    OneByteDecode(h);
    ZeroByte();
  }

  lemma ZeroByte()
    ensures ParseByte('0', '0') == 0 && ByteMoves(0) == [NW, NW, NW, NW]
  {
    assert MoveOfCode(0) == NW;
  }

  /** From the default start, four north-west moves reach the top edge at (4, 0). */
  lemma ZeroByteTrail()
    ensures Trail(DefaultRoomSize, (8, 4), [NW, NW, NW, NW]) == [(7, 3), (6, 2), (5, 1), (4, 0)]
  {
    var ms := [NW, NW, NW, NW];
    assert ms[..3] == [NW, NW, NW] && ms[..3][..2] == [NW, NW] && ms[..3][..2][..1] == [NW];
    assert [NW][..0] == [];
    assert Trail(DefaultRoomSize, (8, 4), [NW]) == [(7, 3)];
    assert Trail(DefaultRoomSize, (8, 4), [NW, NW]) == [(7, 3), (6, 2)];
    assert Trail(DefaultRoomSize, (8, 4), [NW, NW, NW]) == [(7, 3), (6, 2), (5, 1)];
  }

  /** The worked example: fingerprint "00" in the default 17 x 9 room. */
  lemma ScenarioA()
    ensures DefaultStart(DefaultRoomSize) == (8, 4)
    ensures Decode("00") == Ok([NW, NW, NW, NW])
    ensures Trail(DefaultRoomSize, (8, 4), [NW, NW, NW, NW]) == [(7, 3), (6, 2), (5, 1), (4, 0)]
    ensures var room := RoomOf(DefaultRoomSize, (8, 4), [NW, NW, NW, NW]);
      CoinSym(Count(room, (8, 4))) == 'S' && CoinSym(Count(room, (4, 0))) == 'E'
  {
    ZeroByteMoves("00");
    ZeroByteTrail();
    var ms := [NW, NW, NW, NW];
    assert EndOf(DefaultRoomSize, (8, 4), ms) == (4, 0);
    RoomSentinels(DefaultRoomSize, (8, 4), ms, (4, 0));
    SentinelGlyphs();
  }

  /**
   * In the rendered art the end cell shows 'E' and the start cell 'S' unless
   * the walk ended where it began.
   */
  lemma ArtSentinels(hashalg: Option<string>, roomSize: (int, int), start: Cell, hex: string)
    requires IsHexString(hex) && |hex| % 2 == 0
    requires roomSize.0 >= 1 && roomSize.1 >= 1 && InRoom(roomSize, start)
    requires hashalg.Some? ==> NoNewline(hashalg.value)
    ensures ArtOf(hashalg, roomSize, start, hex).Ok?
    ensures var (lines, e) := (SplitLines(ArtOf(hashalg, roomSize, start, hex).value), EndOf(roomSize, start, Decode(hex).value));
      && InRoom(roomSize, e)
      && |lines| == roomSize.1 + 2
      && ShowsAt(lines, e, 'E')
      && ShowsAt(lines, start, if start == e then 'E' else 'S')
  {
    var moves := Decode(hex).value;
    assert ArtOf(hashalg, roomSize, start, hex) == Ok(Render(roomSize, RoomOf(roomSize, start, moves), hashalg));
    WalkSentinels(hashalg, roomSize, start, moves);
  }

  /** The sentinels of any walk, as drawn in the rendered room. */
  lemma WalkSentinels(hashalg: Option<string>, roomSize: (int, int), start: Cell, moves: seq<Move>)
    requires roomSize.0 >= 1 && roomSize.1 >= 1 && InRoom(roomSize, start)
    requires hashalg.Some? ==> NoNewline(hashalg.value)
    ensures var (lines, e) := (SplitLines(Render(roomSize, RoomOf(roomSize, start, moves), hashalg)), EndOf(roomSize, start, moves));
      && InRoom(roomSize, e)
      && |lines| == roomSize.1 + 2
      && ShowsAt(lines, e, 'E')
      && ShowsAt(lines, start, if start == e then 'E' else 'S')
  {
    var room := RoomOf(roomSize, start, moves);
    var e := EndOf(roomSize, start, moves);
    TrailInRoom(roomSize, start, moves);
    CellShows(roomSize, room, hashalg, e);
    CellShows(roomSize, room, hashalg, start);
    RoomSentinels(roomSize, start, moves, e);
    SentinelGlyphs();
  }

  /** A cell of the room is drawn as the glyph of its count. */
  lemma CellShows(size: (int, int), room: Room, hashalg: Option<string>, c: Cell)
    requires size.0 >= 0 && InRoom(size, c)
    requires hashalg.Some? ==> NoNewline(hashalg.value)
    ensures |SplitLines(Render(size, room, hashalg))| == size.1 + 2
    ensures ShowsAt(SplitLines(Render(size, room, hashalg)), c, CoinSym(Count(room, c)))
  {
    RenderCell(size, room, hashalg, c);
  }

  /** k north-west moves from (1, 1): the first lands in the corner, the rest push against it. */
  lemma {:induction false} CornerPush(size: (int, int), k: nat)
    requires size.0 >= 1 && size.1 >= 1 && k >= 1
    ensures Trail(size, (1, 1), seq(k, _ => NW)) == seq(k, _ => (0, 0))
  {
    var ms := seq(k, _ => NW);
    if k > 1 {
      CornerPush(size, k - 1);
      assert ms[..k - 1] == seq(k - 1, _ => NW);
    } else {
      assert ms[..0] == [];
    }
  }

  /**
   * Counts are not capped: nineteen moves into the corner from (1, 1) and one
   * move back leave 19 in the corner, which renders as the fallback '!', and
   * some fingerprint drives exactly this walk.
   */
  lemma CrowdedCorner()
    ensures var ms := seq(19, _ => NW) + [SE];
      && |ms| % 4 == 0
      && Decode(EncodeHex(ms)) == Ok(ms)
      && EndOf(DefaultRoomSize, (1, 1), ms) == (1, 1)
      && Count(RoomOf(DefaultRoomSize, (1, 1), ms), (0, 0)) == 19
      && CoinSym(Count(RoomOf(DefaultRoomSize, (1, 1), ms), (0, 0))) == Fallback
  {
    var pushes := seq(19, _ => NW);
    var ms := pushes + [SE];
    EncodeDecode(ms);
    CornerPush(DefaultRoomSize, 19);
    var corner := seq(19, _ => (0, 0));
    assert ms[..19] == pushes;
    var t := Trail(DefaultRoomSize, (1, 1), ms);
    assert t == corner + [(1, 1)];
    assert multiset(corner)[(0, 0)] == 19 by {
      MultisetOfRun((0, 0), 19);
    }
    assert multiset(t)[(0, 0)] == 19;
    RoomSentinels(DefaultRoomSize, (1, 1), ms, (0, 0));
  }

  /** A run of n copies of c holds c n times. */
  lemma {:induction false} MultisetOfRun(c: Cell, n: nat)
    ensures multiset(seq(n, _ => c))[c] == n
  {
    if n > 0 {
      MultisetOfRun(c, n - 1);
      assert seq(n, _ => c) == seq(n - 1, _ => c) + [c];
    }
  }

  /** A client of the class: the default object and the worked example. */
  method DefaultScenario() {
    var art := new RandomArt();
    assert art.roomSize == (17, 9) && art.start == (8, 4) && art.hashalg == Some("");
    assert IsHexString("00");
    ZeroByteMoves("00");
    var room := art.GetRoom("00");
    ScenarioA();
    assert room.Ok? && CoinSym(Count(room.value, (4, 0))) == 'E';
  }

  /** A client of the class: a fingerprint of odd length is refused. */
  method OddScenario() {
    var art := new RandomArt();
    assert IsHexString("abc");
    var odd := art.GetRoom("abc");
    assert odd == Err(OddLength);
  }
}
