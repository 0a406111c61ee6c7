/** The simulation engine of server/game.c stated on World values: one
    function per operation that changes the game record, the invariant
    those operations keep, and the properties the engine promises. The
    class in game.dfy performs the same operations in place and is
    proved to agree with these functions. */
module Engine {
  import opened Protocol
  import opened World
  import opened Rules

  const IdleLimitMs: nat := 10000
  const ResumeFreezeMs: nat := 3000
  const FreeCellAttempts: nat := 4000
  const SpawnLen: nat := 3

  // ---------------------------------------------------------------------
  // The invariant

  /** A cell a snake may occupy: inside the border, or the all-zero cell
      that a body buffer holds before anything was written to it. */
  predicate OnBoard(width: int, height: int, p: Pos) {
    p == Pos(0, 0) || Interior(width, height, p)
  }

  predicate PlayerOk(width: int, height: int, pl: Player) {
    PlayerShape(pl) &&
    !IsOpposite(pl.cur, pl.req) &&
    |pl.name| <= StoredNameMax && NulFree(pl.name) &&
    forall i :: 0 <= i < |pl.cells| ==> OnBoard(width, height, pl.cells[i])
  }

  predicate FoodDistinct(food: seq<Pos>) {
    forall i, j :: 0 <= i < j < |food| ==> food[i] != food[j]
  }

  /** What every operation keeps: the record shapes, a board that fits the
      80x40 snapshot grid, a requested direction never opposite to the
      current one, every body cell and food cell on the board, and food
      cells pairwise distinct. */
  predicate WorldOk(w: World) {
    ShapeOk(w) &&
    2 <= w.width <= StateMaxWidth && 2 <= w.height <= StateMaxHeight &&
    (forall s :: 0 <= s < |w.players| ==> PlayerOk(w.width, w.height, w.players[s])) &&
    (forall i :: 0 <= i < |w.food| ==> Interior(w.width, w.height, w.food[i])) &&
    FoodDistinct(w.food)
  }

  /** Only the movement state of a player may differ: alive flag, length,
      score and body buffer. */
  predicate SameControls(a: Player, b: Player) {
    a.active == b.active && a.joined == b.joined && a.paused == b.paused &&
    a.name == b.name && a.cur == b.cur && a.req == b.req &&
    a.freezeUntil == b.freezeUntil
  }

  // ---------------------------------------------------------------------
  // game_init

  const BlankPlayer: Player :=
    Player(false, false, false, false, [], 0, DirRight, DirRight, 0,
           seq(MaxSnakeLen, _ => Pos(0, 0)), 0)

  /** game_init: every slot empty with direction right, no food, all
      timers zero. The pseudo-random source starts unused. */
  function Init(width: U8, height: U8, mode: GameMode): World {
    World(0, width, height, [], mode, 0, 0, 0, false,
          seq(MaxPlayers, _ => BlankPlayer), 0)
  }

  lemma InitOk(width: U8, height: U8, mode: GameMode)
    requires 2 <= width <= StateMaxWidth && 2 <= height <= StateMaxHeight
    ensures WorldOk(Init(width, height, mode))
    ensures CountAlive(Init(width, height, mode).players) == 0
  {
    var w := Init(width, height, mode);
    forall s | 0 <= s < |w.players|
      ensures PlayerOk(w.width, w.height, w.players[s]) && !Live(w.players[s])
    {
      assert w.players[s] == BlankPlayer;
    }
  }

  // ---------------------------------------------------------------------
  // Slot activity flags

  /** game_mark_client_active. */
  function MarkActive(w: World, slot: int): World
    requires ShapeOk(w)
  {
    if slot < 0 || slot >= MaxPlayers then w
    else w.(players := w.players[slot := w.players[slot].(active := true)])
  }

  /** The player record after a full clear: not joined, not alive, not
      paused, empty name, score and length zero, direction right, no
      freeze. The body buffer keeps its stale cells. */
  function Cleared(pl: Player): Player {
    pl.(active := false, joined := false, alive := false, paused := false,
        len := 0, score := 0, name := [], cur := DirRight, req := DirRight,
        freezeUntil := 0)
  }

  /** game_mark_client_inactive_keep_or_clear. */
  function MarkInactive(w: World, slot: int, keep: bool): World
    requires ShapeOk(w)
  {
    if slot < 0 || slot >= MaxPlayers then w
    else
      var pl := w.players[slot];
      w.(players := w.players[slot := if keep then pl.(active := false) else Cleared(pl)])
  }

  /** Keeping only drops the active flag; clearing resets the slot to an
      empty one that no scan sees, and neither touches another slot. */
  lemma MarkInactiveEffect(w: World, slot: int, keep: bool)
    requires WorldOk(w) && 0 <= slot < MaxPlayers
    ensures var r := MarkInactive(w, slot, keep);
      WorldOk(r) && !r.players[slot].active &&
      (forall t :: 0 <= t < MaxPlayers && t != slot ==> r.players[t] == w.players[t]) &&
      (keep ==> r.players[slot] == w.players[slot].(active := false)) &&
      (!keep ==> !r.players[slot].joined && !Live(r.players[slot]) && r.players[slot].score == 0 &&
                 r.players[slot].name == [] && r.players[slot].len == 0) &&
      r.food == w.food
  {
  }

  // ---------------------------------------------------------------------
  // remove_food_at

  /** remove_food_at: an in-range index receives the last entry and the
      count drops by one; any other index changes nothing. */
  function RemoveFood(food: seq<Pos>, i: int): seq<Pos> {
    if i < 0 || i >= |food| then food
    else food[i := food[|food| - 1]][..|food| - 1]
  }

  lemma RemoveFoodEffect(food: seq<Pos>, i: int)
    ensures var r := RemoveFood(food, i);
      (0 <= i < |food| ==>
         |r| == |food| - 1 &&
         multiset(r) == multiset(food) - multiset{food[i]} &&
         (i < |r| ==> r[i] == food[|food| - 1]) &&
         (forall j :: 0 <= j < |r| && j != i ==> r[j] == food[j])) &&
      (!(0 <= i < |food|) ==> r == food)
  {
    if 0 <= i < |food| {
      var n := |food| - 1;
      var r := RemoveFood(food, i);
      if i == n {
        assert food == r + [food[n]];
      } else {
        var u := food[i := food[n]];
        assert u == u[..n] + [food[n]];
        assert multiset(u) == multiset(food) - multiset{food[i]} + multiset{food[n]};
      }
    }
  }

  /** Removing a cell from distinct food takes that cell off the board. */
  lemma RemoveFoodDistinct(food: seq<Pos>, i: int)
    requires FoodDistinct(food) && 0 <= i < |food|
    ensures FoodDistinct(RemoveFood(food, i))
    ensures food[i] !in RemoveFood(food, i)
  {
    var r := RemoveFood(food, i);
    var n := |food| - 1;
    forall j | 0 <= j < |r| ensures r[j] != food[i] {
      if j == i { assert r[j] == food[n]; } else { assert r[j] == food[j]; }
    }
  }

  // ---------------------------------------------------------------------
  // find_free_cell, with rand() as an oracle

  /** The result of a free-cell search and the number of rand() calls
      made once it is over. */
  datatype Probe = Found(cell: Pos, calls: nat) | NotFound(calls: nat)

  /** The search box: x in [3, width-2], y in [1, height-2], computed
      with byte arithmetic. */
  function MaxX(width: U8): U8 { CastU8(width - 2) }
  function MaxY(height: U8): U8 { CastU8(height - 2) }

  predicate BoxEmpty(width: U8, height: U8) {
    MaxX(width) <= 3 || MaxY(height) <= 1
  }

  /** Attempt number `k` of a search whose first rand() call has number
      `base`: x from call base + 2k, y from the call after it. */
  function CandidateAt(width: U8, height: U8, rand: nat -> nat, base: nat, k: nat): Pos
    requires !BoxEmpty(width, height)
  {
    Candidate(MaxX(width), MaxY(height), rand(base + 2 * k), rand(base + 2 * k + 1))
  }

  /** The candidate drawn from two rand() values. */
  function Candidate(maxX: U8, maxY: U8, rx: nat, ry: nat): Pos
    requires 3 < maxX && 1 < maxY
  {
    Pos(CastU8(3 + Rem(rx, maxX - 3 + 1)), CastU8(1 + Rem(ry, maxY - 1 + 1)))
  }

  /** Every candidate lies in the search box, hence inside the border. */
  lemma CandidateInterior(width: U8, height: U8, rand: nat -> nat, base: nat, k: nat)
    requires 2 <= width && 2 <= height && !BoxEmpty(width, height)
    ensures Interior(width, height, CandidateAt(width, height, rand, base, k))
    ensures 3 <= CandidateAt(width, height, rand, base, k).x
  {
    assert MaxX(width) == width - 2 && MaxY(height) == height - 2;
  }

  /** A cell the search rejects: a wall, a segment of a live snake, or
      food. */
  predicate Blocked(w: World, p: Pos) {
    IsWall(w.width, w.height, p) || Occupied(w.players, -1, p, true) || FoodIndex(w.food, p) != -1
  }

  /** Blocked as a test on cells of one world. */
  function BlockedIn(w: World): Pos -> bool {
    p => Blocked(w, p)
  }

  /** The search loop from attempt number `attempt` on, rejecting the
      cells `blocked` holds of. */
  function ProbeFrom(width: U8, height: U8, blocked: Pos -> bool, rand: nat -> nat, base: nat, attempt: nat): (r: Probe)
    requires !BoxEmpty(width, height) && attempt <= FreeCellAttempts
    decreases FreeCellAttempts - attempt
    ensures r.Found? ==> !blocked(r.cell)
  {
    if attempt == FreeCellAttempts then NotFound(base + 2 * FreeCellAttempts)
    else
      var p := CandidateAt(width, height, rand, base, attempt);
      if blocked(p) then ProbeFrom(width, height, blocked, rand, base, attempt + 1)
      else Found(p, base + 2 * attempt + 2)
  }

  /** find_free_cell with its first rand() call numbered `calls`. */
  function FindFreeAt(w: World, rand: nat -> nat, calls: nat): (r: Probe)
    ensures r.Found? ==> !Blocked(w, r.cell)
  {
    if BoxEmpty(w.width, w.height) then NotFound(calls)
    else ProbeFrom(w.width, w.height, BlockedIn(w), rand, calls, 0)
  }

  function FindFree(w: World, rand: nat -> nat): Probe {
    FindFreeAt(w, rand, w.randCalls)
  }

  /** A successful search returns the first unblocked candidate, after
      two rand() calls per attempt up to and including that one. */
  lemma {:induction false} ProbeFound(width: U8, height: U8, blocked: Pos -> bool, rand: nat -> nat, base: nat, attempt: nat)
    returns (k: nat)
    requires !BoxEmpty(width, height) && attempt <= FreeCellAttempts
    requires ProbeFrom(width, height, blocked, rand, base, attempt).Found?
    decreases FreeCellAttempts - attempt
    ensures attempt <= k < FreeCellAttempts
    ensures ProbeFrom(width, height, blocked, rand, base, attempt) == Found(CandidateAt(width, height, rand, base, k), base + 2 * k + 2)
    ensures !blocked(CandidateAt(width, height, rand, base, k))
    ensures forall j :: attempt <= j < k ==> blocked(CandidateAt(width, height, rand, base, j))
  {
    if blocked(CandidateAt(width, height, rand, base, attempt)) {
      k := ProbeFound(width, height, blocked, rand, base, attempt + 1);
    } else {
      k := attempt;
    }
  }

  /** A failed search saw every remaining candidate blocked and spent two
      rand() calls on each of the 4000 attempts. */
  lemma {:induction false} ProbeNotFound(width: U8, height: U8, blocked: Pos -> bool, rand: nat -> nat, base: nat, attempt: nat)
    requires !BoxEmpty(width, height) && attempt <= FreeCellAttempts
    requires ProbeFrom(width, height, blocked, rand, base, attempt).NotFound?
    decreases FreeCellAttempts - attempt
    ensures ProbeFrom(width, height, blocked, rand, base, attempt).calls == base + 2 * FreeCellAttempts
    ensures forall k :: attempt <= k < FreeCellAttempts ==> blocked(CandidateAt(width, height, rand, base, k))
  {
    if attempt < FreeCellAttempts {
      ProbeNotFound(width, height, blocked, rand, base, attempt + 1);
    }
  }

  /** A cell the search returns is inside the border, on no live snake and
      not food, and at most 8000 rand() calls were spent. A failed search
      either had an empty box and spent nothing, or saw all 4000
      candidates blocked. */
  lemma FindFreeEffect(w: World, rand: nat -> nat, calls: nat)
    requires 2 <= w.width && 2 <= w.height
    ensures var r := FindFreeAt(w, rand, calls);
      (r.Found? ==> Interior(w.width, w.height, r.cell) && 3 <= r.cell.x &&
                    !Occupied(w.players, -1, r.cell, true) && r.cell !in w.food &&
                    calls + 2 <= r.calls <= calls + 2 * FreeCellAttempts)
    ensures var r := FindFreeAt(w, rand, calls);
      (r.NotFound? ==>
         (BoxEmpty(w.width, w.height) && r.calls == calls) ||
         (!BoxEmpty(w.width, w.height) && r.calls == calls + 2 * FreeCellAttempts &&
          forall k :: 0 <= k < FreeCellAttempts ==> Blocked(w, CandidateAt(w.width, w.height, rand, calls, k))))
  {
    if !BoxEmpty(w.width, w.height) {
      var r := FindFreeAt(w, rand, calls);
      if r.Found? {
        var k := ProbeFound(w.width, w.height, BlockedIn(w), rand, calls, 0);
        CandidateInterior(w.width, w.height, rand, calls, k);
      } else {
        ProbeNotFound(w.width, w.height, BlockedIn(w), rand, calls, 0);
      }
    }
  }

  // ---------------------------------------------------------------------
  // ensure_food_count

  /** The first loop of ensure_food_count: add free cells until the
      target is met or a search fails. */
  function TopUp(w: World, rand: nat -> nat, target: nat): (r: World)
    decreases target - |w.food|
    ensures r == w.(food := r.food, randCalls := r.randCalls)
    ensures |w.food| <= |r.food| && r.food[..|w.food|] == w.food
    ensures |w.food| >= target ==> r == w
    ensures |w.food| < target ==> |r.food| <= target
  {
    if |w.food| < target then
      match FindFree(w, rand)
      case NotFound(c) => w.(randCalls := c)
      case Found(p, c) =>
        var r := TopUp(w.(food := w.food + [p], randCalls := c), rand, target);
        assert r.food[..|w.food|] == r.food[..|w.food| + 1][..|w.food|];
        r
    else w
  }

  /** One round of the top-up loop: a search, and on success the cell
      appended. */
  function TopUpOnce(w: World, rand: nat -> nat): World {
    match FindFree(w, rand)
    case NotFound(c) => w.(randCalls := c)
    case Found(p, c) => w.(food := w.food + [p], randCalls := c)
  }

  /** Below the target, the top-up is one round followed by the rest when
      the search succeeds, and that round alone when it fails. */
  lemma TopUpUnfold(w: World, rand: nat -> nat, target: nat)
    requires |w.food| < target
    ensures TopUp(w, rand, target) ==
      if FindFree(w, rand).Found? then TopUp(TopUpOnce(w, rand), rand, target) else TopUpOnce(w, rand)
  {}

  /** The food target: one per live snake, at most 64. */
  function FoodTarget(players: seq<Player>): (r: nat)
    ensures r <= MaxPlayers && r <= CountAlive(players)
    ensures r == MaxPlayers || r == CountAlive(players)
  {
    var alive := CountAlive(players);
    if alive > MaxPlayers then MaxPlayers else alive
  }

  /** ensure_food_count: top up, then trim to the target. */
  function EnsureFood(w: World, rand: nat -> nat): (r: World)
    ensures r == w.(food := r.food, randCalls := r.randCalls)
  {
    var target := FoodTarget(w.players);
    var w1 := TopUp(w, rand, target);
    if |w1.food| > target then w1.(food := w1.food[..target]) else w1
  }

  /** Appending a free interior cell keeps the invariant. */
  lemma AppendFoodOk(w: World, p: Pos, c: nat)
    requires WorldOk(w) && |w.food| < MaxPlayers && Interior(w.width, w.height, p) && p !in w.food
    ensures WorldOk(w.(food := w.food + [p], randCalls := c))
  {
    var f := w.food + [p];
    forall i, j | 0 <= i < j < |f| ensures f[i] != f[j] {
      if j == |w.food| { assert f[i] == w.food[i]; }
    }
  }

  /** Cells that the top-up added: each was free when it was chosen. */
  predicate AddedFree(w: World, food: seq<Pos>) {
    |w.food| <= |food| &&
    forall k :: |w.food| <= k < |food| ==>
      Interior(w.width, w.height, food[k]) &&
      !Occupied(w.players, -1, food[k], true) && food[k] !in food[..k]
  }

  /** The cells the top-up adds were free when chosen, and the invariant
      holds afterwards. */
  lemma {:induction false} TopUpEffect(w: World, rand: nat -> nat, target: nat)
    requires WorldOk(w) && target <= MaxPlayers
    decreases target - |w.food|
    ensures WorldOk(TopUp(w, rand, target))
    ensures AddedFree(w, TopUp(w, rand, target).food)
  {
    if |w.food| < target {
      FindFreeEffect(w, rand, w.randCalls);
      match FindFree(w, rand)
      case NotFound(c) =>
      case Found(p, c) =>
        var w1 := w.(food := w.food + [p], randCalls := c);
        AppendFoodOk(w, p, c);
        TopUpEffect(w1, rand, target);
        AddedFreeStep(w, p, c, TopUp(w1, rand, target).food);
    }
  }

  lemma AddedFreeStep(w: World, p: Pos, c: nat, food: seq<Pos>)
    requires Interior(w.width, w.height, p) && !Occupied(w.players, -1, p, true) && p !in w.food
    requires |w.food| + 1 <= |food| && food[..|w.food| + 1] == w.food + [p]
    requires AddedFree(w.(food := w.food + [p], randCalls := c), food)
    ensures AddedFree(w, food)
  {
    var n := |w.food|;
    assert food[n] == (w.food + [p])[n];
    assert food[..n] == food[..n + 1][..n];
  }

  /** The top-up stops short of its target only when a search fails. */
  lemma {:induction false} TopUpShort(w: World, rand: nat -> nat, target: nat)
    decreases target - |w.food|
    ensures var r := TopUp(w, rand, target);
      |r.food| < target ==>
        exists c: nat :: c <= r.randCalls && FindFree(r.(randCalls := c), rand) == NotFound(r.randCalls)
  {
    if |w.food| < target {
      TopUpUnfold(w, rand, target);
      var probe := FindFree(w, rand);
      if probe.NotFound? {
        var r := TopUp(w, rand, target);
        assert r == w.(randCalls := probe.calls);
        if !BoxEmpty(w.width, w.height) {
          ProbeNotFound(w.width, w.height, BlockedIn(w), rand, w.randCalls, 0);
        }
        assert r.(randCalls := w.randCalls) == w;
      } else {
        TopUpShort(TopUpOnce(w, rand), rand, target);
      }
    }
  }


  /** After ensure_food_count there is at most one food per live snake
      (and at most 64); there are exactly that many unless a search for a
      free cell failed; cells that were already food keep their order,
      and every added cell was inside the border, on no live snake and
      not already food. Nothing but the food and the rand() counter
      changes. */
  lemma EnsureFoodEffect(w: World, rand: nat -> nat)
    requires WorldOk(w)
    ensures var r := EnsureFood(w, rand);
      r == w.(food := r.food, randCalls := r.randCalls) && WorldOk(r) &&
      |r.food| <= FoodTarget(w.players) &&
      (|r.food| < FoodTarget(w.players) ==>
         exists c: nat :: c <= r.randCalls && FindFree(r.(randCalls := c), rand) == NotFound(r.randCalls)) &&
      (|w.food| >= FoodTarget(w.players) ==> r.food == w.food[..FoodTarget(w.players)]) &&
      (|w.food| < FoodTarget(w.players) ==> r.food[..|w.food|] == w.food && AddedFree(w, r.food))
  {
    var target := FoodTarget(w.players);
    TopUpEffect(w, rand, target);
    TopUpShort(w, rand, target);
    var w1 := TopUp(w, rand, target);
    var r := EnsureFood(w, rand);
    if |w1.food| > target {
      assert r.food == w.food[..target];
      forall i, j | 0 <= i < j < |r.food| ensures r.food[i] != r.food[j] {
        assert r.food[i] == w.food[i] && r.food[j] == w.food[j];
      }
    }
  }

  // ---------------------------------------------------------------------
  // game_join_new_player

  /** The three spawn cells: the head and two cells to its left. */
  function SpawnBody(cells: seq<Pos>, head: Pos): seq<Pos>
    requires |cells| >= SpawnLen
  {
    cells[0 := head][1 := Pos(CastU8(head.x - 1), head.y)][2 := Pos(CastU8(head.x - 2), head.y)]
  }

  /** The joining player before the spawn search: joined, alive, not
      paused, score zero, direction right, three segments long, name
      truncated to 31 bytes. */
  function Joining(pl: Player, name: seq<U8>): Player {
    pl.(name := Take(name, StoredNameMax), joined := true, alive := true, paused := false,
        score := 0, freezeUntil := 0, cur := DirRight, req := DirRight, len := SpawnLen)
  }

  /** The world after the start-time stamp and the pre-search update of
      the joining slot. */
  function JoinPrepared(w: World, slot: nat, name: seq<U8>, now: U64): World
    requires ShapeOk(w) && slot < MaxPlayers
  {
    var w1 := if w.start == 0 then w.(start := now) else w;
    w1.(players := w1.players[slot := Joining(w1.players[slot], name)])
  }

  /** game_join_new_player: returns the new world and 0, or -1. */
  function Join(w: World, slot: int, name: seq<U8>, now: U64, rand: nat -> nat): (World, int)
    requires ShapeOk(w)
  {
    if slot < 0 || slot >= MaxPlayers then (w, -1)
    else if !w.players[slot].active then (if w.start == 0 then w.(start := now) else w, -1)
    else
      var w2 := JoinPrepared(w, slot, name, now);
      match FindFree(w2, rand)
      case NotFound(c) => (w2.(randCalls := c), -1)
      case Found(head, c) =>
        (EnsureFood(Spawned(w2, slot, head, c), rand), 0)
  }

  /** The prepared world once the search found `head` after `c` rand()
      calls: the joining slot gets its three-segment body. */
  function Spawned(w2: World, slot: nat, head: Pos, c: nat): World
    requires slot < |w2.players| && |w2.players[slot].cells| >= SpawnLen
  {
    var pl := w2.players[slot];
    w2.(players := w2.players[slot := pl.(cells := SpawnBody(pl.cells, head))], randCalls := c)
  }

  lemma PlayerSpawnOk(width: U8, height: U8, pl: Player, head: Pos)
    requires 2 <= width && 2 <= height
    requires PlayerShape(pl) && Interior(width, height, head) && 3 <= head.x
    requires |pl.name| <= StoredNameMax && NulFree(pl.name) && pl.cur == pl.req
    requires forall i :: 0 <= i < |pl.cells| ==> OnBoard(width, height, pl.cells[i])
    ensures PlayerOk(width, height, pl.(cells := SpawnBody(pl.cells, head)))
    ensures Interior(width, height, SpawnBody(pl.cells, head)[1])
    ensures Interior(width, height, SpawnBody(pl.cells, head)[2])
  {
    var c := SpawnBody(pl.cells, head);
    forall i | 0 <= i < |c| ensures OnBoard(width, height, c[i]) {
      if i >= 3 { assert c[i] == pl.cells[i]; }
    }
  }

  /** The spawned world keeps the invariant. */
  lemma SpawnOk(w: World, slot: nat, name: seq<U8>, now: U64, head: Pos, c: nat)
    requires WorldOk(w) && NulFree(name) && slot < MaxPlayers
    requires Interior(w.width, w.height, head) && 3 <= head.x
    ensures WorldOk(Spawned(JoinPrepared(w, slot, name, now), slot, head, c))
  {
    var w2 := JoinPrepared(w, slot, name, now);
    var pl1 := w2.players[slot];
    assert NulFree(pl1.name) by {
      assert pl1.name <= name;
    }
    PlayerSpawnOk(w.width, w.height, pl1, head);
  }

  lemma JoinPreparedOk(w: World, slot: nat, name: seq<U8>, now: U64)
    requires WorldOk(w) && NulFree(name) && slot < MaxPlayers
    ensures WorldOk(JoinPrepared(w, slot, name, now))
  {
    var w2 := JoinPrepared(w, slot, name, now);
    var pl1 := w2.players[slot];
    assert pl1.name <= name;
    assert PlayerOk(w.width, w.height, pl1);
  }

  /** The join once the spawn search has found `head`. */
  lemma JoinSpawned(w: World, slot: nat, name: seq<U8>, now: U64, rand: nat -> nat, head: Pos, c: nat)
    requires WorldOk(w) && NulFree(name) && slot < MaxPlayers && w.players[slot].active
    requires FindFree(JoinPrepared(w, slot, name, now), rand) == Found(head, c)
    ensures Join(w, slot, name, now, rand).1 == 0
    ensures WorldOk(Join(w, slot, name, now, rand).0)
    ensures var pl := Join(w, slot, name, now, rand).0.players[slot];
        Live(pl) && !pl.paused && pl.score == 0 && pl.len == SpawnLen &&
        pl.cur == DirRight && pl.req == DirRight && pl.name == Take(name, StoredNameMax) &&
        pl.cells[0] == head && head !in w.food &&
        (forall t, i :: 0 <= t < MaxPlayers && t != slot ==> !Blocks(w.players, -1, true, head, t, i)) &&
        pl.cells[1] == Pos(head.x - 1, head.y) && pl.cells[2] == Pos(head.x - 2, head.y) &&
        Interior(w.width, w.height, head) && Interior(w.width, w.height, pl.cells[2])
    ensures forall t :: 0 <= t < MaxPlayers && t != slot ==> Join(w, slot, name, now, rand).0.players[t] == w.players[t]
  {
    var w2 := JoinPrepared(w, slot, name, now);
    JoinPreparedOk(w, slot, name, now);
    FindFreeEffect(w2, rand, w2.randCalls);
    var pl1 := w2.players[slot];
    var w3 := Spawned(w2, slot, head, c);
    SpawnOk(w, slot, name, now, head, c);
    PlayerSpawnOk(w.width, w.height, pl1, head);
    EnsureFoodEffect(w3, rand);
    JoinFound(w, slot, name, now, rand, head, c);
    SpawnedPlayer(w2, slot, head, c);
    assert Join(w, slot, name, now, rand).0.players == w3.players;
    forall t, i | 0 <= t < MaxPlayers && t != slot ensures !Blocks(w.players, -1, true, head, t, i) {
      assert w.players[t] == w2.players[t];
      assert !Blocks(w2.players, -1, true, head, t, i);
    }
  }

  /** The spawned slot holds the head and the two cells to its left;
      nothing else of the record changes but the rand() counter. */
  lemma SpawnedPlayer(w2: World, slot: nat, head: Pos, c: nat)
    requires slot < |w2.players| && |w2.players[slot].cells| >= SpawnLen && 3 <= head.x
    ensures var r := Spawned(w2, slot, head, c); var pl := r.players[slot];
      r == w2.(players := r.players, randCalls := c) && |r.players| == |w2.players| &&
      pl == w2.players[slot].(cells := pl.cells) && |pl.cells| == |w2.players[slot].cells| &&
      pl.cells[0] == head && pl.cells[1] == Pos(head.x - 1, head.y) && pl.cells[2] == Pos(head.x - 2, head.y) &&
      pl.cells[SpawnLen..] == w2.players[slot].cells[SpawnLen..] &&
      forall t :: 0 <= t < |w2.players| && t != slot ==> r.players[t] == w2.players[t]
  {
  }

  /** The branch of game_join_new_player that found a head. */
  lemma JoinFound(w: World, slot: nat, name: seq<U8>, now: U64, rand: nat -> nat, head: Pos, c: nat)
    requires ShapeOk(w) && slot < MaxPlayers && w.players[slot].active
    requires FindFree(JoinPrepared(w, slot, name, now), rand) == Found(head, c)
    ensures Join(w, slot, name, now, rand) == (EnsureFood(Spawned(JoinPrepared(w, slot, name, now), slot, head, c), rand), 0)
  {
  }

  /** A join succeeds (code 0) exactly when the slot is in range and
      connected and the spawn search finds a head; otherwise it returns
      -1. Either way the invariant holds. What a successful join leaves in
      the slot is stated by JoinSpawned. */
  lemma JoinSucceeds(w: World, slot: int, name: seq<U8>, now: U64, rand: nat -> nat)
    requires WorldOk(w) && NulFree(name)
    ensures Join(w, slot, name, now, rand).1 == 0 <==>
      0 <= slot < MaxPlayers && w.players[slot].active &&
      FindFree(JoinPrepared(w, slot, name, now), rand).Found?
    ensures Join(w, slot, name, now, rand).1 != 0 ==> Join(w, slot, name, now, rand).1 == -1
    ensures WorldOk(Join(w, slot, name, now, rand).0)
  {
    if 0 <= slot < MaxPlayers && w.players[slot].active {
      var w2 := JoinPrepared(w, slot, name, now);
      JoinPreparedOk(w, slot, name, now);
      match FindFree(w2, rand)
      case NotFound(c) =>
      case Found(head, c) =>
        JoinSpawned(w, slot, name, now, rand, head, c);
    }
  }

  /** A join whose spawn search fails is not free of effects: the slot is
      left joined and alive, three segments long, over the stale cells of
      its body buffer, and the rand() calls are spent. */
  lemma JoinFailureSideEffect(w: World, slot: int, name: seq<U8>, now: U64, rand: nat -> nat)
    requires WorldOk(w) && 0 <= slot < MaxPlayers && w.players[slot].active
    requires FindFree(JoinPrepared(w, slot, name, now), rand).NotFound?
    ensures Join(w, slot, name, now, rand).1 == -1
    ensures var r := Join(w, slot, name, now, rand).0;
      Live(r.players[slot]) && r.players[slot].len == SpawnLen &&
      r.players[slot].cells == w.players[slot].cells && r.food == w.food
  {
  }

  // ---------------------------------------------------------------------
  // game_resume_player

  /** game_resume_player: unpause, freeze for three seconds, keep the
      alive flag, score and body, then refresh the food. */
  function Resume(w: World, slot: int, now: U64, rand: nat -> nat): (World, int) {
    if slot < 0 || slot >= |w.players| then (w, -1)
    else if !w.players[slot].joined then (w, -1)
    else
      var pl := w.players[slot].(paused := false, freezeUntil := AddU64(now, ResumeFreezeMs));
      (EnsureFood(w.(players := w.players[slot := pl]), rand), 0)
  }

  /** Resuming keeps everything the player had (name, score, body, length,
      alive flag, directions) and only lifts the pause and sets a freeze
      three seconds ahead. */
  lemma ResumeKeepsPlayer(w: World, slot: int, now: U64, rand: nat -> nat)
    requires WorldOk(w) && 0 <= slot < MaxPlayers && w.players[slot].joined
    ensures var (r, rc) := Resume(w, slot, now, rand);
      rc == 0 && WorldOk(r) &&
      r.players[slot] == w.players[slot].(paused := false, freezeUntil := AddU64(now, ResumeFreezeMs)) &&
      (forall t :: 0 <= t < MaxPlayers && t != slot ==> r.players[t] == w.players[t])
  {
    var pl := w.players[slot].(paused := false, freezeUntil := AddU64(now, ResumeFreezeMs));
    EnsureFoodEffect(w.(players := w.players[slot := pl]), rand);
  }

  // ---------------------------------------------------------------------
  // game_handle_input, game_handle_pause, game_handle_leave

  /** game_handle_input. */
  function Input(w: World, slot: int, dir: U8): World {
    if slot < 0 || slot >= |w.players| then w
    else
      var pl := w.players[slot];
      if !pl.joined || !pl.alive || pl.paused then w
      else if IsOpposite(pl.cur, dir) then w
      else w.(players := w.players[slot := pl.(req := dir)])
  }

  /** Input is a no-op unless the slot is in range, joined, alive and not
      paused, and it never latches the opposite of the current direction;
      otherwise only the requested direction changes, to the input. */
  lemma InputEffect(w: World, slot: int, dir: U8)
    requires WorldOk(w)
    ensures var r := Input(w, slot, dir);
      WorldOk(r) &&
      (!(0 <= slot < MaxPlayers && Live(w.players[slot]) && !w.players[slot].paused) ==> r == w) &&
      (0 <= slot < MaxPlayers && Live(w.players[slot]) && !w.players[slot].paused ==>
         (IsOpposite(w.players[slot].cur, dir) ==> r == w) &&
         (!IsOpposite(w.players[slot].cur, dir) ==>
            r == w.(players := w.players[slot := w.players[slot].(req := dir)])))
  {
  }

  /** game_handle_pause: a joined slot becomes paused. */
  function Pause(w: World, slot: int): World {
    if slot < 0 || slot >= |w.players| then w
    else if !w.players[slot].joined then w
    else w.(players := w.players[slot := w.players[slot].(paused := true)])
  }

  /** game_handle_leave: clear the slot, then refresh the food. */
  function Leave(w: World, slot: int, rand: nat -> nat): World
    requires ShapeOk(w)
  {
    if slot < 0 || slot >= MaxPlayers then w
    else EnsureFood(MarkInactive(w, slot, false), rand)
  }

  /** After a leave the slot is empty and the food never exceeds the live
      snakes that remain. */
  lemma LeaveEffect(w: World, slot: int, rand: nat -> nat)
    requires WorldOk(w) && 0 <= slot < MaxPlayers
    ensures var r := Leave(w, slot, rand);
      WorldOk(r) && !r.players[slot].joined && !r.players[slot].active &&
      r.players[slot].score == 0 && |r.food| <= CountAlive(r.players)
  {
    MarkInactiveEffect(w, slot, false);
    EnsureFoodEffect(MarkInactive(w, slot, false), rand);
  }

  // ---------------------------------------------------------------------
  // update_game_termination

  /** update_game_termination. */
  function Termination(w: World, now: U64): (r: World)
    ensures r == w.(terminate := r.terminate, lastNoSnakes := r.lastNoSnakes)
    ensures w.terminate ==> r.terminate
  {
    var alive := CountAlive(w.players);
    if w.mode == Timed then
      if w.timedEnd != 0 && now >= w.timedEnd then w.(terminate := true) else w
    else if alive == 0 then
      if w.lastNoSnakes == 0 then w.(lastNoSnakes := now)
      else if SubU64(now, w.lastNoSnakes) >= IdleLimitMs then w.(terminate := true)
      else w
    else w.(lastNoSnakes := 0)
  }

  /** Timed mode: the flag is set iff a deadline is set and reached (or it
      was set before); the idle timer is untouched. */
  lemma TimedTermination(w: World, now: U64)
    requires w.mode == Timed
    ensures var r := Termination(w, now);
      r == w.(terminate := r.terminate) &&
      (r.terminate <==> w.terminate || (w.timedEnd != 0 && now >= w.timedEnd))
  {
  }

  /** Standard mode: any live snake resets the idle timer; with none, the
      first idle tick starts the timer, and later ones set the flag once
      10 seconds have passed since it started. */
  lemma StandardTermination(w: World, now: U64)
    requires w.mode == Standard
    ensures var r := Termination(w, now);
      r == w.(terminate := r.terminate, lastNoSnakes := r.lastNoSnakes) &&
      (r.terminate ==> w.terminate || (r.lastNoSnakes != 0 && SubU64(now, r.lastNoSnakes) >= IdleLimitMs)) &&
      (CountAlive(w.players) > 0 ==> r.lastNoSnakes == 0 && r.terminate == w.terminate) &&
      (CountAlive(w.players) == 0 && w.lastNoSnakes == 0 ==> r.lastNoSnakes == now && r.terminate == w.terminate) &&
      (CountAlive(w.players) == 0 && w.lastNoSnakes != 0 ==>
         r.lastNoSnakes == w.lastNoSnakes &&
         (r.terminate <==> w.terminate || SubU64(now, w.lastNoSnakes) >= IdleLimitMs))
  {
  }

  /** Idle scenario: with no live snake, a tick at t0 > 0 starts the timer;
      a check at t0 + 9999 does not fire and one at t0 + 10000 does. */
  lemma IdleScenario(w: World, t0: U64)
    requires w.mode == Standard && CountAlive(w.players) == 0 && w.lastNoSnakes == 0 && !w.terminate
    requires 0 < t0 && t0 + IdleLimitMs < Two64
    ensures var w1 := Termination(w, t0);
      w1.lastNoSnakes == t0 && !w1.terminate &&
      !Termination(w1, t0 + IdleLimitMs - 1).terminate &&
      Termination(w1, t0 + IdleLimitMs).terminate
  {
  }

  /** Timed scenario: with the deadline 60 seconds after the start, the
      flag is clear one millisecond before it and set at it. */
  lemma DeadlineScenario(w: World, start: U64)
    requires w.mode == Timed && !w.terminate && 0 < start && start + 60000 < Two64
    requires w.timedEnd == start + 60000
    ensures !Termination(w, start + 59999).terminate
    ensures Termination(w, start + 60000).terminate
  {
  }

  // ---------------------------------------------------------------------
  // game_tick

  /** The direction latch: a joined, alive, unpaused player adopts its
      requested direction. */
  function Latch(pl: Player): Player {
    if Live(pl) && !pl.paused then pl.(cur := pl.req) else pl
  }

  function LatchAll(players: seq<Player>): seq<Player> {
    seq(|players|, s requires 0 <= s < |players| => Latch(players[s]))
  }

  /** A player that takes part in movement on this tick. */
  predicate Moves(pl: Player, now: U64) {
    Live(pl) && !pl.paused && !(pl.freezeUntil != 0 && now < pl.freezeUntil)
  }

  /** The body buffer after a step: the new head at index 0, the first
      `n - 1` old cells behind it, and the cells from `n` on untouched. */
  function Shifted(cells: seq<Pos>, n: nat, head: Pos): seq<Pos>
    requires 1 <= n <= |cells|
  {
    [head] + cells[..n - 1] + cells[n..]
  }

  /** One iteration of the movement loop for slot `s`: compute the new
      head, test for food, kill on a wall or a collision, otherwise grow
      or shift. Later slots see the result of earlier ones. */
  function MoveOne(w: World, s: nat, now: U64): (r: World)
    requires ShapeOk(w) && s < MaxPlayers
    ensures ShapeOk(r) && r == w.(players := r.players, food := r.food)
    ensures |r.players| == |w.players| &&
            (forall t :: 0 <= t < |w.players| && t != s ==> r.players[t] == w.players[t]) &&
            SameControls(r.players[s], w.players[s])
    ensures !Moves(w.players[s], now) ==> r == w
  {
    var pl := w.players[s];
    if !Moves(pl, now) then w
    else
      var head := NextPosition(pl.cells[0], pl.cur);
      var fi := FoodIndex(w.food, head);
      var grow := fi != -1;
      if IsWall(w.width, w.height, head) || Occupied(w.players, s, head, grow) then
        w.(players := w.players[s := pl.(alive := false)])
      else
        var len := if grow && pl.len < MaxSnakeLen then pl.len + 1 else pl.len;
        var score := if grow then (pl.score + 1) % Two16 else pl.score;
        w.(players := w.players[s := pl.(len := len, score := score, cells := Shifted(pl.cells, len, head))],
           food := if grow then RemoveFood(w.food, fi) else w.food)
  }

  /** The eating half of a surviving move: when `fi` names a food entry,
      the snake grows by one segment up to 64, scores one point with
      16-bit wrap-around, and the entry is removed. */
  function Fed(w: World, s: nat, fi: int): (r: World)
    requires ShapeOk(w) && s < MaxPlayers
    ensures ShapeOk(r) && r.players[s].len >= w.players[s].len
  {
    var pl := w.players[s];
    if fi == -1 then w
    else
      w.(players := w.players[s := pl.(len := if pl.len < MaxSnakeLen then pl.len + 1 else pl.len,
                                      score := (pl.score + 1) % Two16)],
         food := RemoveFood(w.food, fi))
  }

  /** The shifting half: the new head goes in front of the first `len - 1`
      segments. */
  function Stepped(w: World, s: nat, head: Pos): World
    requires ShapeOk(w) && s < MaxPlayers && 1 <= w.players[s].len
  {
    var pl := w.players[s];
    w.(players := w.players[s := pl.(cells := Shifted(pl.cells, pl.len, head))])
  }

  /** A mover that survives is fed, then stepped. */
  lemma MoveOneSteps(w: World, s: nat, now: U64)
    requires ShapeOk(w) && s < MaxPlayers && Moves(w.players[s], now)
    requires !IsWall(w.width, w.height, NewHead(w, s))
    requires !Occupied(w.players, s, NewHead(w, s), FoodIndex(w.food, NewHead(w, s)) != -1)
    ensures 1 <= Fed(w, s, FoodIndex(w.food, NewHead(w, s))).players[s].len
    ensures MoveOne(w, s, now) == Stepped(Fed(w, s, FoodIndex(w.food, NewHead(w, s))), s, NewHead(w, s))
  {}

  /** The movement loop over slots 0..k-1, in slot order. */
  function MovePrefix(w: World, now: U64, k: nat): (r: World)
    requires ShapeOk(w) && k <= MaxPlayers
    ensures ShapeOk(r) && r == w.(players := r.players, food := r.food)
  {
    if k == 0 then w else MoveOne(MovePrefix(w, now, k - 1), k - 1, now)
  }

  /** game_tick. */
  function Tick(w: World, now: U64, rand: nat -> nat): World
    requires ShapeOk(w)
  {
    var w2 := MovePrefix(TickPrepared(w, now), now, MaxPlayers);
    Termination(EnsureFood(w2, rand), now)
  }

  /** The shifted body buffer: the new head, then the first `n - 1` old
      cells in order, then the untouched rest. */
  lemma ShiftedEffect(cells: seq<Pos>, n: nat, head: Pos)
    requires 1 <= n <= |cells|
    ensures var c := Shifted(cells, n, head);
      |c| == |cells| && c[0] == head && c[1..n] == cells[..n - 1] && c[n..] == cells[n..]
  {
    var c := Shifted(cells, n, head);
    assert c[1..n] == ([head] + cells[..n - 1])[1..];
  }

  /** The new head of a mover, and whether it eats. */
  function NewHead(w: World, s: nat): Pos
    requires ShapeOk(w) && s < MaxPlayers
  {
    NextPosition(w.players[s].cells[0], w.players[s].cur)
  }

  predicate Crashes(w: World, s: nat)
    requires ShapeOk(w) && s < MaxPlayers
  {
    var head := NewHead(w, s);
    IsWall(w.width, w.height, head) || Occupied(w.players, s, head, head in w.food)
  }

  /** A mover whose new head is a wall cell, or a segment of a live snake
      (its own last segment excepted when it does not eat), dies in place:
      body, length, score and food stay as they were. */
  lemma MoveOneDies(w: World, s: nat, now: U64)
    requires ShapeOk(w) && s < MaxPlayers && Moves(w.players[s], now) && Crashes(w, s)
    ensures var r := MoveOne(w, s, now); var pl := w.players[s]; var q := r.players[s];
      !q.alive && q.cells == pl.cells && q.len == pl.len && q.score == pl.score && r.food == w.food
  {
    var head := NewHead(w, s);
    assert (FoodIndex(w.food, head) != -1) == (head in w.food);
  }

  /** Otherwise the new head is an interior cell and becomes segment 0,
      the old segments follow it in order, and eating food lengthens the
      snake by one (capped at 64), adds one to the 16-bit score and removes
      exactly that food cell. */
  lemma MoveOneAdvances(w: World, s: nat, now: U64)
    requires WorldOk(w) && s < MaxPlayers && Moves(w.players[s], now) && !Crashes(w, s)
    ensures var r := MoveOne(w, s, now); var pl := w.players[s]; var q := r.players[s];
      var head := NewHead(w, s);
      Live(q) && Interior(w.width, w.height, head) && q.cells[0] == head &&
      q.cells[q.len..] == pl.cells[q.len..] &&
      (head !in w.food ==> q.len == pl.len && q.score == pl.score && r.food == w.food &&
                           q.cells[1..q.len] == pl.cells[..pl.len - 1]) &&
      (head in w.food ==> q.len == (if pl.len < MaxSnakeLen then pl.len + 1 else pl.len) &&
                          q.score == (pl.score + 1) % Two16 &&
                          q.cells[1..q.len] == pl.cells[..q.len - 1] &&
                          multiset(r.food) == multiset(w.food) - multiset{head} && head !in r.food)
  {
    var pl := w.players[s];
    var head := NewHead(w, s);
    var fi := FoodIndex(w.food, head);
    assert (fi != -1) == (head in w.food);
    assert PlayerOk(w.width, w.height, pl);
    assert OnBoard(w.width, w.height, pl.cells[0]);
    if pl.cells[0] == Pos(0, 0) {
      StepFromOrigin(w.width, w.height, pl.cur);
    } else {
      StepFromInterior(w.width, w.height, pl.cells[0], pl.cur);
    }
    var q := MoveOne(w, s, now).players[s];
    ShiftedEffect(pl.cells, q.len, head);
    if fi != -1 {
      RemoveFoodEffect(w.food, fi);
      RemoveFoodDistinct(w.food, fi);
    }
  }

  /** A step keeps the invariant. */
  lemma MoveOneOk(w: World, s: nat, now: U64)
    requires WorldOk(w) && s < MaxPlayers
    ensures WorldOk(MoveOne(w, s, now))
  {
    var pl := w.players[s];
    if Moves(pl, now) && !Crashes(w, s) {
      AdvanceOk(w, s, now);
    } else if Moves(pl, now) {
      MoveOneDies(w, s, now);
      var r := MoveOne(w, s, now);
      assert PlayerOk(w.width, w.height, pl);
      assert PlayerOk(w.width, w.height, r.players[s]);
    }
  }

  lemma AdvanceOk(w: World, s: nat, now: U64)
    requires WorldOk(w) && s < MaxPlayers && Moves(w.players[s], now) && !Crashes(w, s)
    ensures WorldOk(MoveOne(w, s, now))
  {
    MoveOneAdvances(w, s, now);
    var r := MoveOne(w, s, now);
    AdvancedPlayerOk(w, s, now);
    var head := NewHead(w, s);
    if head in w.food {
      var fi := FoodIndex(w.food, head);
      RemoveFoodDistinct(w.food, fi);
      forall i | 0 <= i < |r.food| ensures Interior(w.width, w.height, r.food[i]) {
        assert r.food[i] in multiset(r.food);
        assert r.food[i] in w.food;
      }
    }
    assert r == w.(players := w.players[s := r.players[s]], food := r.food);
    ReplaceOk(w, s, r.players[s], r.food);
  }

  /** Replacing one player by a valid one and the food by distinct
      interior cells keeps the invariant. */
  lemma ReplaceOk(w: World, s: nat, pl: Player, food: seq<Pos>)
    requires WorldOk(w) && s < MaxPlayers && PlayerOk(w.width, w.height, pl) && |food| <= MaxPlayers
    requires (forall i :: 0 <= i < |food| ==> Interior(w.width, w.height, food[i])) && FoodDistinct(food)
    ensures WorldOk(w.(players := w.players[s := pl], food := food))
  {
  }

  lemma AdvancedPlayerOk(w: World, s: nat, now: U64)
    requires WorldOk(w) && s < MaxPlayers && Moves(w.players[s], now) && !Crashes(w, s)
    ensures PlayerOk(w.width, w.height, MoveOne(w, s, now).players[s])
  {
    MoveOneAdvances(w, s, now);
    var pl := w.players[s];
    var q := MoveOne(w, s, now).players[s];
    assert PlayerOk(w.width, w.height, pl);
    forall i | 0 <= i < |q.cells| ensures OnBoard(w.width, w.height, q.cells[i]) {
      if i == 0 {
      } else if i < q.len {
        assert q.cells[i] == q.cells[1..q.len][i - 1];
      } else {
        assert q.cells[i] == q.cells[q.len..][i - q.len];
      }
    }
  }

  /** The movement loop over the first `k` slots keeps the invariant and
      every player's controls; slots from `k` on are untouched, and so is
      every slot whose player did not take part in movement. */
  lemma MovePrefixEffect(w: World, now: U64, k: nat)
    requires WorldOk(w) && k <= MaxPlayers
    ensures var r := MovePrefix(w, now, k);
      WorldOk(r) &&
      (forall t :: 0 <= t < MaxPlayers ==> SameControls(r.players[t], w.players[t])) &&
      (forall t :: k <= t < MaxPlayers ==> r.players[t] == w.players[t]) &&
      (forall t :: 0 <= t < k && !Moves(w.players[t], now) ==> r.players[t] == w.players[t])
  {
    MovePrefixOk(w, now, k);
    MovePrefixPlayers(w, now, k);
  }

  lemma {:induction false} MovePrefixOk(w: World, now: U64, k: nat)
    requires WorldOk(w) && k <= MaxPlayers
    ensures WorldOk(MovePrefix(w, now, k))
  {
    if k > 0 {
      MovePrefixOk(w, now, k - 1);
      MoveOneOk(MovePrefix(w, now, k - 1), k - 1, now);
    }
  }

  lemma {:induction false} MovePrefixPlayers(w: World, now: U64, k: nat)
    requires ShapeOk(w) && k <= MaxPlayers
    ensures var r := MovePrefix(w, now, k);
      (forall t :: 0 <= t < MaxPlayers ==> SameControls(r.players[t], w.players[t])) &&
      (forall t :: k <= t < MaxPlayers ==> r.players[t] == w.players[t]) &&
      (forall t :: 0 <= t < k && !Moves(w.players[t], now) ==> r.players[t] == w.players[t])
  {
    if k > 0 {
      MovePrefixPlayers(w, now, k - 1);
    }
  }

  /** Latching keeps the invariant: the current direction becomes the
      requested one, which is never opposite to itself. */
  lemma LatchAllOk(w: World, now: U64)
    requires WorldOk(w)
    ensures WorldOk(TickPrepared(w, now))
  {
    var w1 := TickPrepared(w, now);
    forall t | 0 <= t < |w1.players| ensures PlayerOk(w1.width, w1.height, w1.players[t]) {
      assert w1.players[t] == Latch(w.players[t]);
    }
  }

  /** The world after the first part of game_tick: start stamped, counter
      advanced, directions latched. */
  function TickPrepared(w: World, now: U64): World {
    w.(start := if w.start == 0 then now else w.start,
       tick := (w.tick + 1) % Two32,
       players := LatchAll(w.players))
  }

  /** A tick advances the 32-bit tick counter by one with wrap-around,
      stamps the start time on the first tick, keeps the invariant and the
      board, and leaves at most one food per live snake. The termination
      flag never clears. */
  lemma TickEffect(w: World, now: U64, rand: nat -> nat)
    requires WorldOk(w)
    ensures var r := Tick(w, now, rand);
      WorldOk(r) && r.tick == (w.tick + 1) % Two32 &&
      r.start == (if w.start == 0 then now else w.start) &&
      r.width == w.width && r.height == w.height && r.mode == w.mode && r.timedEnd == w.timedEnd &&
      |r.food| <= CountAlive(r.players) &&
      (w.terminate ==> r.terminate)
  {
    var w1 := TickPrepared(w, now);
    LatchAllOk(w, now);
    MovePrefixEffect(w1, now, MaxPlayers);
    var w2 := MovePrefix(w1, now, MaxPlayers);
    EnsureFoodEffect(w2, rand);
    var w3 := EnsureFood(w2, rand);
    assert Tick(w, now, rand) == Termination(w3, now);
    assert Tick(w, now, rand).players == w3.players && Tick(w, now, rand).food == w3.food;
    SameBoardOk(w3, Tick(w, now, rand));
  }

  /** The invariant reads only the board size, the players and the food. */
  lemma SameBoardOk(a: World, b: World)
    requires WorldOk(a) && a.width == b.width && a.height == b.height
    requires a.players == b.players && a.food == b.food
    ensures WorldOk(b)
  {
  }

  /** No player changes its name, its slot flags or its requested
      direction during a tick. The new current direction of a live,
      unpaused player is the one it requested, which is never the opposite
      of the one it had, so no snake reverses onto itself within a tick. A
      player that is not joined and alive is left exactly as it was, so no
      snake comes back to life. */
  lemma TickPlayers(w: World, now: U64, rand: nat -> nat)
    requires WorldOk(w)
    ensures var r := Tick(w, now, rand);
      forall t :: 0 <= t < MaxPlayers ==>
        SameControls(r.players[t], TickPrepared(w, now).players[t]) &&
        r.players[t].req == w.players[t].req &&
        !IsOpposite(w.players[t].cur, r.players[t].cur) &&
        (Live(w.players[t]) && !w.players[t].paused ==> r.players[t].cur == w.players[t].req) &&
        (!Live(w.players[t]) ==> r.players[t] == w.players[t])
  {
    var w1 := TickPrepared(w, now);
    LatchAllOk(w, now);
    MovePrefixEffect(w1, now, MaxPlayers);
    var w2 := MovePrefix(w1, now, MaxPlayers);
    var r := Tick(w, now, rand);
    assert r.players == w2.players;
    forall t | 0 <= t < MaxPlayers
      ensures !IsOpposite(w.players[t].cur, r.players[t].cur)
      ensures !Live(w.players[t]) ==> r.players[t] == w.players[t]
    {
      assert w1.players[t] == Latch(w.players[t]);
      assert PlayerOk(w.width, w.height, w.players[t]);
    }
  }
}
