/** The game record of server/game.c as a mutable object: the food and
    player tables are fixed 64-entry arrays updated in place, and every
    operation is proved to leave the record equal to what the matching
    function of the Engine module computes from the old record. */
module Game {
  import opened Protocol
  import opened World
  import opened Rules
  import opened Engine
  import opened Render

  class GameState {
    var tick: U32
    var width: U8
    var height: U8
    /** The food buffer; entries 0..foodCount-1 are live. */
    const food: array<Pos>
    var foodCount: nat
    var mode: GameMode
    var start: U64
    var timedEnd: U64
    var lastNoSnakes: U64
    var terminate: bool
    const players: array<Player>
    /** The pseudo-random source: call number k returns rand(k). */
    const rand: nat -> nat
    var randCalls: nat

    /** The record as a World value. */
    ghost function Model(): World
      reads this, food, players
      requires foodCount <= food.Length
    {
      World(tick, width, height, food[..foodCount], mode, start, timedEnd, lastNoSnakes,
            terminate, players[..], randCalls)
    }

    /** The buffers have their fixed sizes and the record its shape. */
    ghost predicate Shaped()
      reads this, food, players
    {
      food.Length == MaxPlayers && players.Length == MaxPlayers && foodCount <= MaxPlayers &&
      ShapeOk(Model())
    }

    ghost predicate Valid()
      reads this, food, players
    {
      Shaped() && WorldOk(Model())
    }

    /** game_init: the board size and mode are recorded, every slot is
        empty and no food is out. The random source is a parameter. */
    constructor (mapWidth: U8, mapHeight: U8, gameMode: GameMode, source: nat -> nat)
      requires 2 <= mapWidth <= StateMaxWidth && 2 <= mapHeight <= StateMaxHeight
      ensures Valid() && fresh(food) && fresh(players)
      ensures Model() == Engine.Init(mapWidth, mapHeight, gameMode)
      ensures rand == source
    {
      var ps := new Player[MaxPlayers];
      for i := 0 to MaxPlayers
        invariant forall j :: 0 <= j < i ==> ps[j] == BlankPlayer
      {
        ps[i] := BlankPlayer;
      }
      tick := 0;
      width := mapWidth;
      height := mapHeight;
      food := new Pos[MaxPlayers](_ => Pos(0, 0));
      foodCount := 0;
      mode := gameMode;
      start := 0;
      timedEnd := 0;
      lastNoSnakes := 0;
      terminate := false;
      players := ps;
      rand := source;
      randCalls := 0;
      new;
      assert players[..] == Engine.Init(mapWidth, mapHeight, gameMode).players;
      InitOk(mapWidth, mapHeight, gameMode);
    }

    /** game_mark_client_active. */
    method MarkActive(slot: int)
      requires Shaped()
      modifies players
      ensures Shaped() && Model() == Engine.MarkActive(old(Model()), slot)
    {
      if slot < 0 || slot >= MaxPlayers {
        return;
      }
      players[slot] := players[slot].(active := true);
    }

    /** game_mark_client_inactive_keep_or_clear. */
    method MarkInactive(slot: int, keep: bool)
      requires Shaped()
      modifies players
      ensures Shaped() && Model() == Engine.MarkInactive(old(Model()), slot, keep)
    {
      if slot < 0 || slot >= MaxPlayers {
        return;
      }
      var pl := players[slot];
      if keep {
        players[slot] := pl.(active := false);
        return;
      }
      players[slot] := Cleared(pl);
    }

    /** is_food_at: the first food entry at `p`, or -1. */
    method FoodAt(p: Pos) returns (idx: int)
      requires foodCount <= food.Length
      ensures idx == FoodIndex(food[..foodCount], p)
    {
      var i := 0;
      while i < foodCount
        invariant 0 <= i <= foodCount
        invariant FoodIndexFrom(food[..foodCount], p, i) == FoodIndex(food[..foodCount], p)
      {
        if food[i] == p {
          return i;
        }
        i := i + 1;
      }
      return -1;
    }

    /** remove_food_at: the last entry moves into the removed one. */
    method RemoveFoodAt(i: int)
      requires Shaped()
      modifies this, food
      ensures Shaped() && Model() == old(Model()).(food := RemoveFood(old(Model()).food, i))
    {
      if i < 0 || i >= foodCount {
        return;
      }
      var last := foodCount - 1;
      food[i] := food[last];
      foodCount := last;
    }

    /** is_occupied_except_tail over the player table. */
    method IsOccupied(mover: int, p: Pos, grow: bool) returns (r: bool)
      requires Shaped()
      ensures r == Occupied(players[..], mover, p, grow)
    {
      for s := 0 to MaxPlayers
        invariant forall t, j :: 0 <= t < s ==> !Blocks(players[..], mover, grow, p, t, j)
      {
        var pl := players[s];
        if !pl.joined || !pl.alive {
          continue;
        }
        var i := 0;
        while i < pl.len
          invariant 0 <= i <= pl.len
          invariant forall j :: 0 <= j < i ==> !Blocks(players[..], mover, grow, p, s, j)
        {
          if !(s == mover && !grow && i == pl.len - 1) && pl.cells[i] == p {
            assert Blocks(players[..], mover, grow, p, s, i);
            return true;
          }
          i := i + 1;
        }
      }
      return false;
    }

    /** count_alive_snakes. */
    method CountAliveSnakes() returns (count: nat)
      requires players.Length == MaxPlayers
      ensures count == CountAlive(players[..])
    {
      count := 0;
      for s := 0 to MaxPlayers
        invariant count == CountAlive(players[..s])
      {
        assert players[..s + 1][..s] == players[..s];
        if players[s].joined && players[s].alive {
          count := count + 1;
        }
      }
      assert players[..MaxPlayers] == players[..];
    }

    /** The three tests find_free_cell applies to a candidate. */
    method IsBlocked(p: Pos) returns (r: bool)
      requires Shaped()
      ensures r == Blocked(Model(), p)
    {
      if IsWall(width, height, p) {
        return true;
      }
      r := IsOccupied(-1, p, true);
      if r {
        return;
      }
      var fi := FoodAt(p);
      r := fi != -1;
    }

    /** find_free_cell: up to 4000 random candidates in the box
        [3, width-2] x [1, height-2], the first that is no wall, no live
        snake segment and no food. */
    method FindFreeCell() returns (found: bool, cell: Pos)
      requires Shaped()
      modifies this`randCalls
      ensures Shaped() && Model() == old(Model()).(randCalls := randCalls)
      ensures var r := FindFree(old(Model()), rand);
        found == r.Found? && randCalls == r.calls && (found ==> cell == r.cell)
    {
      var maxX := CastU8(width - 2);
      var maxY := CastU8(height - 2);
      if maxX <= 3 || maxY <= 1 {
        assert BoxEmpty(width, height);
        return false, Pos(0, 0);
      }
      var calls;
      found, cell, calls := Search(maxX, maxY);
      randCalls := calls;
    }

    /** The attempt loop of find_free_cell, drawing from rand() call
        number randCalls on; returns the number of the next call. */
    method Search(maxX: U8, maxY: U8) returns (found: bool, cell: Pos, calls: nat)
      requires Shaped() && maxX == MaxX(width) && maxY == MaxY(height) && !BoxEmpty(width, height)
      ensures var r := ProbeFrom(width, height, BlockedIn(Model()), rand, randCalls, 0);
        found == r.Found? && calls == r.calls && (found ==> cell == r.cell)
    {
      ghost var w := Model();
      ghost var result := ProbeFrom(width, height, BlockedIn(w), rand, randCalls, 0);
      found, cell := false, Pos(0, 0);
      calls := randCalls;
      var attempt := 0;
      while attempt < FreeCellAttempts && !found
        invariant 0 <= attempt <= FreeCellAttempts
        invariant calls == randCalls + 2 * attempt
        invariant !found ==> ProbeFrom(width, height, BlockedIn(w), rand, randCalls, attempt) == result
        invariant found ==> result == Found(cell, calls)
      {
        var p := Draw(maxX, maxY, calls, randCalls, attempt);
        calls := calls + 2;
        var b := IsBlocked(p);
        attempt := attempt + 1;
        if !b {
          found, cell := true, p;
        }
      }
      if !found {
        assert ProbeFrom(width, height, BlockedIn(w), rand, randCalls, attempt) == NotFound(calls);
      }
    }

    /** The two rand() calls numbered `calls` and `calls + 1` of one
        attempt, scaled into the search box. */
    method Draw(maxX: U8, maxY: U8, calls: nat, ghost base: nat, ghost attempt: nat) returns (p: Pos)
      requires maxX == MaxX(width) && maxY == MaxY(height) && !BoxEmpty(width, height)
      requires calls == base + 2 * attempt
      ensures p == CandidateAt(width, height, rand, base, attempt)
    {
      var rx := rand(calls);
      var ry := rand(calls + 1);
      RemIsMod(rx, maxX - 3 + 1);
      RemIsMod(ry, maxY - 1 + 1);
      p := Pos(CastU8(3 + rx % (maxX - 3 + 1)), CastU8(1 + ry % (maxY - 1 + 1)));
    }

    /** ensure_food_count: add free cells while there are fewer food
        cells than live snakes and a free cell is found, then drop entries
        from the end down to that number. */
    method EnsureFoodCount()
      requires Shaped()
      modifies this, food
      ensures Shaped() && Model() == EnsureFood(old(Model()), rand)
    {
      var alive := CountAliveSnakes();
      if alive > MaxPlayers {
        alive := MaxPlayers;
      }
      TopUpFood(alive);
      TrimFood(alive);
    }

    /** The second loop of ensure_food_count: drop entries from the end
        until at most `target` remain. */
    method TrimFood(target: nat)
      requires Shaped()
      modifies this
      ensures Shaped()
      ensures Model() == if |old(Model()).food| > target then old(Model()).(food := old(Model()).food[..target]) else old(Model())
    {
      ghost var w1 := Model();
      while foodCount > target
        invariant foodCount <= |w1.food| && (foodCount < |w1.food| ==> target <= foodCount)
        invariant Model() == w1.(food := w1.food[..foodCount])
      {
        foodCount := foodCount - 1;
      }
    }

    /** The first loop of ensure_food_count. */
    method TopUpFood(target: nat)
      requires Shaped() && target <= MaxPlayers
      modifies this, food
      ensures Shaped() && Model() == TopUp(old(Model()), rand, target)
    {
      ghost var w := Model();
      while foodCount < target
        invariant Shaped()
        invariant TopUp(Model(), rand, target) == TopUp(w, rand, target)
        decreases target - foodCount
      {
        TopUpUnfold(Model(), rand, target);
        var done := TopUpStep();
        if done {
          return;
        }
      }
    }

    /** One pass of that loop: search, and on success append the cell. */
    method TopUpStep() returns (done: bool)
      requires Shaped() && foodCount < MaxPlayers
      modifies this, food
      ensures Shaped() && Model() == TopUpOnce(old(Model()), rand)
      ensures done <==> FindFree(old(Model()), rand).NotFound?
    {
      ghost var w := Model();
      var ok, p := FindFreeCell();
      if !ok {
        return true;
      }
      ghost var searched := Model();
      food[foodCount] := p;
      foodCount := foodCount + 1;
      assert Model() == searched.(food := w.food + [p]);
      return false;
    }

    /** game_find_paused_player_by_name as written: the lowest joined,
        paused slot whose stored name equals `name` in its first 32 bytes,
        or -1. */
    method FindPausedPlayerByName(name: seq<U8>) returns (slot: int)
      requires players.Length == MaxPlayers
      ensures slot == FindPausedAsWritten(players[..], name)
    {
      for i := 0 to MaxPlayers
        invariant FindPausedFrom(players[..], name, MaxNameLen, i) == FindPausedAsWritten(players[..], name)
      {
        var pl := players[i];
        if !pl.joined || !pl.paused {
          continue;
        }
        if StrnEq(pl.name, name, MaxNameLen) {
          return i;
        }
      }
      return -1;
    }

    /** game_join_new_player. */
    method JoinNewPlayer(slot: int, name: seq<U8>, now: U64) returns (rc: int)
      requires Shaped()
      modifies this, players, food
      ensures Shaped() && (Model(), rc) == Join(old(Model()), slot, name, now, rand)
    {
      if slot < 0 || slot >= MaxPlayers {
        return -1;
      }
      if start == 0 {
        start := now;
      }
      if !players[slot].active {
        return -1;
      }
      PrepareSlot(slot, name);
      assert Model() == JoinPrepared(old(Model()), slot, name, now);
      var ok, head := FindFreeCell();
      if !ok {
        return -1;
      }
      PlaceBody(slot, head);
      EnsureFoodCount();
      return 0;
    }

    /** The pre-search update of the joining slot. */
    method PrepareSlot(slot: nat, name: seq<U8>)
      requires Shaped() && slot < MaxPlayers
      modifies players
      ensures Shaped() && Model() == old(Model()).(players := old(players[..])[slot := Joining(old(players[slot]), name)])
    {
      var pl := players[slot];
      pl := pl.(name := Take(name, StoredNameMax));
      pl := pl.(joined := true, alive := true, paused := false, score := 0, freezeUntil := 0);
      pl := pl.(cur := DirRight, req := DirRight);
      pl := pl.(len := SpawnLen);
      players[slot] := pl;
    }

    /** Lay the three spawn segments leftwards from `head`. */
    method PlaceBody(slot: nat, head: Pos)
      requires Shaped() && slot < MaxPlayers
      modifies players
      ensures Shaped() && Model() == old(Model()).(players := old(players[..])[slot := old(players[slot]).(cells := SpawnBody(old(players[slot]).cells, head))])
    {
      var pl := players[slot];
      var cells := pl.cells;
      cells := cells[0 := head];
      cells := cells[1 := Pos(CastU8(head.x - 1), head.y)];
      cells := cells[2 := Pos(CastU8(head.x - 2), head.y)];
      players[slot] := pl.(cells := cells);
    }

    /** game_resume_player. */
    method ResumePlayer(slot: int, now: U64) returns (rc: int)
      requires Shaped()
      modifies this, players, food
      ensures Shaped() && (Model(), rc) == Resume(old(Model()), slot, now, rand)
    {
      if slot < 0 || slot >= MaxPlayers {
        return -1;
      }
      var pl := players[slot];
      if !pl.joined {
        return -1;
      }
      players[slot] := pl.(paused := false, freezeUntil := AddU64(now, ResumeFreezeMs));
      EnsureFoodCount();
      return 0;
    }

    /** game_handle_input. */
    method HandleInput(slot: int, dir: U8)
      requires Shaped()
      modifies players
      ensures Shaped() && Model() == Input(old(Model()), slot, dir)
    {
      if slot < 0 || slot >= MaxPlayers {
        return;
      }
      var pl := players[slot];
      if !pl.joined || !pl.alive {
        return;
      }
      if pl.paused {
        return;
      }
      if IsOpposite(pl.cur, dir) {
        return;
      }
      players[slot] := pl.(req := dir);
    }

    /** game_handle_pause. */
    method HandlePause(slot: int)
      requires Shaped()
      modifies players
      ensures Shaped() && Model() == Pause(old(Model()), slot)
    {
      if slot < 0 || slot >= MaxPlayers {
        return;
      }
      var pl := players[slot];
      if !pl.joined {
        return;
      }
      players[slot] := pl.(paused := true);
    }

    /** game_handle_leave. */
    method HandleLeave(slot: int)
      requires Shaped()
      modifies this, players, food
      ensures Shaped() && Model() == Leave(old(Model()), slot, rand)
    {
      if slot < 0 || slot >= MaxPlayers {
        return;
      }
      MarkInactive(slot, false);
      EnsureFoodCount();
    }

    /** update_game_termination. */
    method UpdateTermination(now: U64)
      requires Shaped()
      modifies this
      ensures Shaped() && Model() == Termination(old(Model()), now)
    {
      var alive := CountAliveSnakes();
      if mode == Timed {
        if timedEnd != 0 && now >= timedEnd {
          terminate := true;
        }
        return;
      }
      if alive == 0 {
        if lastNoSnakes == 0 {
          lastNoSnakes := now;
        } else if SubU64(now, lastNoSnakes) >= IdleLimitMs {
          terminate := true;
        }
      } else {
        lastNoSnakes := 0;
      }
    }
    /** The first loop of game_tick: every joined, alive, unpaused snake
        takes its requested direction. */
    method LatchDirections()
      requires Shaped()
      modifies players
      ensures Shaped() && Model() == old(Model()).(players := LatchAll(old(Model()).players))
    {
      for s := 0 to MaxPlayers
        invariant forall t :: 0 <= t < s ==> players[t] == Latch(old(players[t]))
        invariant forall t :: s <= t < MaxPlayers ==> players[t] == old(players[t])
      {
        var pl := players[s];
        if !pl.joined || !pl.alive {
          continue;
        }
        if pl.paused {
          continue;
        }
        players[s] := pl.(cur := pl.req);
      }
      assert players[..] == LatchAll(old(players[..]));
    }

    /** One iteration of the movement loop of game_tick, for slot `s`. */
    method MoveSnake(s: nat, now: U64)
      requires Shaped() && s < MaxPlayers
      modifies this, players, food
      ensures Shaped() && Model() == MoveOne(old(Model()), s, now)
    {
      var pl := players[s];
      if !pl.joined || !pl.alive {
        return;
      }
      if pl.paused {
        return;
      }
      if pl.freezeUntil != 0 && now < pl.freezeUntil {
        return;
      }
      StepSnake(s, now);
    }

    /** The part of that iteration for a snake that moves. */
    method StepSnake(s: nat, now: U64)
      requires Shaped() && s < MaxPlayers && Moves(players[s], now)
      modifies this, players, food
      ensures Shaped() && Model() == MoveOne(old(Model()), s, now)
    {
      var head := NextPosition(players[s].cells[0], players[s].cur);
      var eaten := FoodAt(head);
      if IsWall(width, height, head) {
        players[s] := players[s].(alive := false);
        return;
      }
      var hit := IsOccupied(s, head, eaten != -1);
      if hit {
        players[s] := players[s].(alive := false);
        return;
      }
      MoveOneSteps(Model(), s, now);
      Feed(s, eaten);
      ShiftCells(s, head);
    }

    /** Growth, score and food removal when the new head is on food. */
    method Feed(s: nat, eaten: int)
      requires Shaped() && s < MaxPlayers
      modifies this, players, food
      ensures Shaped() && Model() == Fed(old(Model()), s, eaten)
    {
      if eaten == -1 {
        return;
      }
      var pl := players[s];
      var len := pl.len;
      if len < MaxSnakeLen {
        len := len + 1;
      }
      players[s] := pl.(len := len, score := (pl.score + 1) % Two16);
      RemoveFoodAt(eaten);
    }

    /** The shift of the body buffer behind the new head, done on a
        scratch copy of the buffer. */
    method ShiftCells(s: nat, head: Pos)
      requires Shaped() && s < MaxPlayers && 1 <= players[s].len
      modifies players
      ensures Shaped() && Model() == Stepped(old(Model()), s, head)
    {
      var pl := players[s];
      var body := new Pos[|pl.cells|](i requires 0 <= i < |pl.cells| => pl.cells[i]);
      assert body[..] == pl.cells;
      ShiftBody(body, pl.len, head);
      players[s] := pl.(cells := body[..]);
    }

    /** game_tick. */
    method Tick(now: U64)
      requires Shaped()
      modifies this, players, food
      ensures Shaped() && Model() == Engine.Tick(old(Model()), now, rand)
    {
      if start == 0 {
        start := now;
      }
      tick := (tick + 1) % Two32;
      LatchDirections();
      ghost var w1 := Model();
      assert w1 == TickPrepared(old(Model()), now);
      for s := 0 to MaxPlayers
        invariant Shaped()
        invariant Model() == MovePrefix(w1, now, s)
      {
        MoveSnake(s, now);
      }
      EnsureFoodCount();
      UpdateTermination(now);
    }
    /** game_build_ascii_map: blank the grid, then store the border, the
        food and the snakes in that order. */
    method BuildAsciiMap(out: array<char>)
      requires Shaped() && 1 <= width && 1 <= height && out.Length == StateMaxCells
      modifies out
      ensures out[..] == Render.Render(Model())
    {
      for i := 0 to out.Length
        invariant forall j :: 0 <= j < i ==> out[j] == BlankGlyph
      {
        out[i] := BlankGlyph;
      }
      assert out[..] == Apply(BlankGrid(), width, []);
      DrawBorder(out, width, height);
      DrawFood(out, width, food, foodCount, BorderWrites(Model()));
      DrawSnakes(out, width, players, BorderWrites(Model()) + FoodWrites(food[..foodCount]));
    }
  }

  /** One store of game_build_ascii_map, with the bounds check Put makes. */
  method Store(out: array<char>, width: U8, ghost done: seq<Write>, wr: Write)
    requires out[..] == Apply(BlankGrid(), width, done)
    modifies out
    ensures out[..] == Apply(BlankGrid(), width, done + [wr])
  {
    ApplySnoc(BlankGrid(), width, done, wr);
    var i := wr.cell.y * width + wr.cell.x;
    if 0 <= i < out.Length {
      out[i] := wr.ch;
    }
  }

  /** The two border loops of game_build_ascii_map. */
  method DrawBorder(out: array<char>, width: U8, height: U8)
    requires 1 <= width && 1 <= height && out[..] == Apply(BlankGrid(), width, [])
    modifies out
    ensures out[..] == Apply(BlankGrid(), width, RowWrites(width, height, width) + ColWrites(width, height, height))
  {
    for x := 0 to width
      invariant out[..] == Apply(BlankGrid(), width, RowWrites(width, height, x))
    {
      ghost var done := RowWrites(width, height, x);
      Store(out, width, done, Write(Pos(x, 0), WallGlyph));
      Store(out, width, done + [Write(Pos(x, 0), WallGlyph)], Write(Pos(x, height - 1), WallGlyph));
      RowStep(width, height, x);
    }
    ghost var rows := RowWrites(width, height, width);
    assert rows + ColWrites(width, height, 0) == rows;
    for y := 0 to height
      invariant out[..] == Apply(BlankGrid(), width, rows + ColWrites(width, height, y))
    {
      ghost var done := rows + ColWrites(width, height, y);
      Store(out, width, done, Write(Pos(0, y), WallGlyph));
      Store(out, width, done + [Write(Pos(0, y), WallGlyph)], Write(Pos(width - 1, y), WallGlyph));
      ColStep(width, height, y, rows);
    }
  }

  /** The food loop of game_build_ascii_map over entries 0..n-1. */
  method DrawFood(out: array<char>, width: U8, food: array<Pos>, n: nat, ghost done: seq<Write>)
    requires n <= food.Length && out[..] == Apply(BlankGrid(), width, done)
    modifies out
    ensures out[..] == Apply(BlankGrid(), width, done + FoodWrites(food[..n]))
  {
    assert done + FoodWrites(food[..0]) == done;
    for i := 0 to n
      invariant out[..] == Apply(BlankGrid(), width, done + FoodWrites(food[..i]))
    {
      Store(out, width, done + FoodWrites(food[..i]), Write(food[i], FoodGlyph));
      assert food[..i + 1][..i] == food[..i];
      assert done + FoodWrites(food[..i + 1]) == done + FoodWrites(food[..i]) + [Write(food[i], FoodGlyph)];
    }
  }

  /** The snake loop of game_build_ascii_map over all 64 slots. */
  method DrawSnakes(out: array<char>, width: U8, players: array<Player>, ghost done: seq<Write>)
    requires players.Length == MaxPlayers && forall s :: 0 <= s < MaxPlayers ==> PlayerShape(players[s])
    requires out[..] == Apply(BlankGrid(), width, done)
    modifies out
    ensures out[..] == Apply(BlankGrid(), width, done + PlayerWrites(players[..], MaxPlayers))
  {
    ghost var ps := players[..];
    assert forall s :: 0 <= s < |ps| ==> PlayerShape(ps[s]);
    assert done + PlayerWrites(ps, 0) == done;
    for s := 0 to MaxPlayers
      invariant out[..] == Apply(BlankGrid(), width, done + PlayerWrites(ps, s))
    {
      ghost var before := done + PlayerWrites(ps, s);
      DrawSnake(out, width, s, players[s], before);
      PlayerWritesStep(done, ps, s);
    }
  }

  /** The stores of game_build_ascii_map for slot `s`. */
  method DrawSnake(out: array<char>, width: U8, s: nat, pl: Player, ghost done: seq<Write>)
    requires PlayerShape(pl) && out[..] == Apply(BlankGrid(), width, done)
    modifies out
    ensures out[..] == Apply(BlankGrid(), width, done + SnakeWrites(s, pl))
  {
    if !pl.joined {
      assert done + SnakeWrites(s, pl) == done;
      return;
    }
    if !pl.alive && pl.len > 0 {
      DrawCells(out, width, pl.cells, 0, pl.len, CorpseGlyph, done);
      return;
    }
    var head := HeadWrite(s, pl);
    if pl.len > 0 {
      Store(out, width, done, Write(pl.cells[0], HeadChar(s)));
    }
    DrawCells(out, width, pl.cells, 1, pl.len, BodyChar(s), done + head);
    assert done + head + CellWrites(pl.cells, 1, pl.len, BodyChar(s)) == done + SnakeWrites(s, pl);
  }

  /** A segment loop: glyph `ch` on cells lo..hi-1 in order. */
  method DrawCells(out: array<char>, width: U8, cells: seq<Pos>, lo: nat, hi: nat, ch: char, ghost done: seq<Write>)
    requires hi <= |cells| && out[..] == Apply(BlankGrid(), width, done)
    modifies out
    ensures out[..] == Apply(BlankGrid(), width, done + CellWrites(cells, lo, hi, ch))
  {
    if hi <= lo {
      assert done + CellWrites(cells, lo, hi, ch) == done;
      return;
    }
    assert done + CellWrites(cells, lo, lo, ch) == done;
    for i := lo to hi
      invariant out[..] == Apply(BlankGrid(), width, done + CellWrites(cells, lo, i, ch))
    {
      Store(out, width, done + CellWrites(cells, lo, i, ch), Write(cells[i], ch));
      assert done + CellWrites(cells, lo, i + 1, ch) == done + CellWrites(cells, lo, i, ch) + [Write(cells[i], ch)];
    }
  }

  /** The shift loop of game_tick on a body buffer: from index n-1 down to
      1 each entry takes its predecessor, then the head goes into entry 0. */
  method ShiftBody(body: array<Pos>, n: nat, head: Pos)
    requires 1 <= n <= body.Length
    modifies body
    ensures body[..] == Shifted(old(body[..]), n, head)
  {
    ghost var cells := body[..];
    var i := n - 1;
    while i > 0
      invariant 0 <= i <= n - 1
      invariant forall k :: 0 <= k <= i ==> body[k] == cells[k]
      invariant forall k :: i < k < n ==> body[k] == cells[k - 1]
      invariant forall k :: n <= k < body.Length ==> body[k] == cells[k]
    {
      body[i] := body[i - 1];
      i := i - 1;
    }
    body[0] := head;
    assert forall k :: 0 <= k < body.Length ==> body[k] == Shifted(cells, n, head)[k];
  }
}