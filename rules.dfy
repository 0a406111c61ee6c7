/** The side-effect-free helpers of the simulation (server/game.c): the
    direction and movement rules, the wall test, the read-only scans over
    food and players, the per-slot glyphs and the timer readouts. */
module Rules {
  import opened Protocol
  import opened World

  // ---------------------------------------------------------------------
  // Directions and movement

  /** is_opposite_direction: true exactly for the pairs up/down and
      left/right, in either order. Bytes outside 0..3 are opposite of
      nothing. */
  function IsOpposite(a: U8, b: U8): (r: bool)
    ensures r <==> a < 4 && b < 4 && b == (a + 2) % 4
    ensures r ==> a != b
  {
    (a == DirUp && b == DirDown) ||
    (a == DirDown && b == DirUp) ||
    (a == DirLeft && b == DirRight) ||
    (a == DirRight && b == DirLeft)
  }

  /** The direction that undoes `d` (for the four valid directions). */
  function Reverse(d: U8): U8 {
    if d < 4 then (d + 2) % 4 else d
  }

  /** next_position: one cell in direction `d`, with byte wrap-around; an
      unknown direction leaves the head where it is. */
  function NextPosition(h: Pos, d: U8): (r: Pos)
    ensures d >= 4 ==> r == h
    ensures d < 4 ==> r != h && (r.x == h.x || r.y == h.y)
    ensures d == DirUp || d == DirDown ==> r.x == h.x
    ensures d == DirLeft || d == DirRight ==> r.y == h.y
    ensures d == DirUp ==> (h.y - r.y) % Two8 == 1
    ensures d == DirDown ==> (r.y - h.y) % Two8 == 1
    ensures d == DirRight ==> (r.x - h.x) % Two8 == 1
    ensures d == DirLeft ==> (h.x - r.x) % Two8 == 1
  {
    if d == DirUp then Pos(h.x, CastU8(h.y - 1))
    else if d == DirRight then Pos(CastU8(h.x + 1), h.y)
    else if d == DirDown then Pos(h.x, CastU8(h.y + 1))
    else if d == DirLeft then Pos(CastU8(h.x - 1), h.y)
    else h
  }

  /** A step followed by a step in the reverse direction returns to the
      start, on the whole byte torus. */
  lemma {:induction false} StepThenReverse(h: Pos, d: U8)
    requires d < 4
    ensures IsOpposite(d, Reverse(d))
    ensures NextPosition(NextPosition(h, d), Reverse(d)) == h
  {
    var m := NextPosition(h, d);
    if d == DirUp {
      assert m.y == (h.y - 1) % Two8;
      assert NextPosition(m, DirDown).y == (m.y + 1) % Two8 == h.y;
    } else if d == DirDown {
      assert m.y == (h.y + 1) % Two8;
      assert NextPosition(m, DirUp).y == (m.y - 1) % Two8 == h.y;
    } else if d == DirRight {
      assert m.x == (h.x + 1) % Two8;
      assert NextPosition(m, DirLeft).x == (m.x - 1) % Two8 == h.x;
    } else {
      assert m.x == (h.x - 1) % Two8;
      assert NextPosition(m, DirRight).x == (m.x + 1) % Two8 == h.x;
    }
  }

  // ---------------------------------------------------------------------
  // Board geometry

  /** The cells strictly inside the border. */
  predicate Interior(width: int, height: int, p: Pos) {
    1 <= p.x && p.x + 2 <= width && 1 <= p.y && p.y + 2 <= height
  }

  /** The cells the rendered grid has room for. */
  predicate InGrid(width: int, height: int, p: Pos) {
    p.x < width && p.y < height
  }

  /** is_wall: the first or last row or column, the last ones compared as
      bytes. On the grid this is exactly the complement of the interior. */
  function IsWall(width: U8, height: U8, p: Pos): (r: bool)
    ensures 1 <= width && 1 <= height && InGrid(width, height, p) ==>
              (r <==> !Interior(width, height, p))
  {
    p.x == 0 || p.y == 0 || p.x == CastU8(width - 1) || p.y == CastU8(height - 1)
  }

  /** A step from an interior cell that does not hit a wall lands inside. */
  lemma StepFromInterior(width: U8, height: U8, h: Pos, d: U8)
    requires 2 <= width && 2 <= height && Interior(width, height, h)
    requires !IsWall(width, height, NextPosition(h, d))
    ensures Interior(width, height, NextPosition(h, d))
  {
    var q := NextPosition(h, d);
    assert InGrid(width, height, q);
  }

  /** Every step from the corner cell (0,0) hits a wall. */
  lemma StepFromOrigin(width: U8, height: U8, d: U8)
    requires 2 <= width <= 80 && 2 <= height <= 40
    ensures IsWall(width, height, NextPosition(Pos(0, 0), d))
  {
  }

  // ---------------------------------------------------------------------
  // Food scan

  function FoodIndexFrom(food: seq<Pos>, p: Pos, i: nat): (r: int)
    requires i <= |food|
    decreases |food| - i
    ensures r == -1 || i <= r < |food|
    ensures r == -1 <==> p !in food[i..]
    ensures r != -1 ==> food[r] == p && p !in food[i..r]
  {
    if i == |food| then -1
    else if food[i] == p then i
    else FoodIndexFrom(food, p, i + 1)
  }

  /** is_food_at: the index of the first food entry at `p`, or -1. */
  function FoodIndex(food: seq<Pos>, p: Pos): (r: int)
    ensures -1 <= r < |food|
    ensures r == -1 <==> p !in food
    ensures r != -1 ==> food[r] == p && p !in food[..r]
  {
    FoodIndexFrom(food, p, 0)
  }

  // ---------------------------------------------------------------------
  // Occupancy scan

  /** Segment `i` of slot `s` blocks cell `p` for a mover in slot `mover`:
      the slot is joined and alive, `i` is inside its body, and it is not
      the mover's own last segment on a step that does not grow. */
  predicate Blocks(players: seq<Player>, mover: int, grow: bool, p: Pos, s: int, i: int) {
    0 <= s < |players| && Live(players[s]) &&
    0 <= i < players[s].len && i < |players[s].cells| &&
    !(s == mover && !grow && i == players[s].len - 1) &&
    players[s].cells[i] == p
  }

  function BodyScan(players: seq<Player>, mover: int, grow: bool, p: Pos, s: nat, i: nat): (r: bool)
    requires s < |players| && Live(players[s])
    decreases players[s].len - i
    ensures r <==> exists j :: i <= j && Blocks(players, mover, grow, p, s, j)
  {
    var pl := players[s];
    if i >= pl.len || i >= |pl.cells| then false
    else if !(s == mover && !grow && i == pl.len - 1) && pl.cells[i] == p then
      assert Blocks(players, mover, grow, p, s, i);
      true
    else
      BodyScan(players, mover, grow, p, s, i + 1)
  }

  function SlotScan(players: seq<Player>, mover: int, grow: bool, p: Pos, s: nat): (r: bool)
    requires s <= |players|
    decreases |players| - s
    ensures r <==> exists t, j :: s <= t && Blocks(players, mover, grow, p, t, j)
  {
    if s == |players| then false
    else if Live(players[s]) && BodyScan(players, mover, grow, p, s, 0) then true
    else
      assert forall j :: !Blocks(players, mover, grow, p, s, j);
      SlotScan(players, mover, grow, p, s + 1)
  }

  /** is_occupied_except_tail: some live snake has a segment on `p`,
      ignoring only the mover's own last segment when it does not grow. */
  function Occupied(players: seq<Player>, mover: int, p: Pos, grow: bool): (r: bool)
    ensures r <==> exists s, i :: Blocks(players, mover, grow, p, s, i)
  {
    SlotScan(players, mover, grow, p, 0)
  }

  // ---------------------------------------------------------------------
  // Live count

  /** The slots holding a live snake. */
  function LiveSlots(players: seq<Player>): set<int> {
    set s | 0 <= s < |players| && Live(players[s])
  }

  /** count_alive_snakes: how many slots hold a live snake. */
  function CountAlive(players: seq<Player>): (r: nat)
    ensures r == |LiveSlots(players)|
    ensures r <= |players|
    ensures r == 0 <==> forall s :: 0 <= s < |players| ==> !Live(players[s])
  {
    if players == [] then 0
    else
      var n := |players| - 1;
      var rest := players[..n];
      var r := CountAlive(rest) + if Live(players[n]) then 1 else 0;
      assert LiveSlots(players) == LiveSlots(rest) + (if Live(players[n]) then {n} else {});
      assert n !in LiveSlots(rest);
      assert forall s :: 0 <= s < n ==> players[s] == rest[s];
      r
  }

  // ---------------------------------------------------------------------
  // Name lookup

  /** A stored name holds at most 31 bytes before its terminator. */
  const StoredNameMax: nat := MaxNameLen - 1

  /** The first `n` bytes of a string (all of it when shorter). */
  function Take(s: seq<U8>, n: nat): (r: seq<U8>)
    ensures |r| == if |s| <= n then |s| else n
    ensures r <= s
  {
    if |s| <= n then s else s[..n]
  }

  /** strncmp(a, b, n) == 0 for strings without NUL bytes. */
  predicate StrnEq(a: seq<U8>, b: seq<U8>, n: nat) {
    Take(a, n) == Take(b, n)
  }

  predicate PausedNamed(players: seq<Player>, name: seq<U8>, n: nat, i: int) {
    0 <= i < |players| && players[i].joined && players[i].paused && StrnEq(players[i].name, name, n)
  }

  function FindPausedFrom(players: seq<Player>, name: seq<U8>, n: nat, i: nat): (r: int)
    requires i <= |players|
    decreases |players| - i
    ensures r == -1 || i <= r < |players|
    ensures r == -1 <==> forall k :: i <= k ==> !PausedNamed(players, name, n, k)
    ensures r != -1 ==> PausedNamed(players, name, n, r) &&
                        forall k :: i <= k < r ==> !PausedNamed(players, name, n, k)
  {
    if i == |players| then -1
    else if players[i].joined && players[i].paused && StrnEq(players[i].name, name, n) then
      assert PausedNamed(players, name, n, i);
      i
    else FindPausedFrom(players, name, n, i + 1)
  }

  /** game_find_paused_player_by_name as written: it compares up to 32
      bytes, although stored names hold at most 31. */
  function FindPausedAsWritten(players: seq<Player>, name: seq<U8>): (r: int)
    ensures -1 <= r < |players|
    ensures r != -1 ==> PausedNamed(players, name, MaxNameLen, r) &&
                        forall k :: 0 <= k < r ==> !PausedNamed(players, name, MaxNameLen, k)
    ensures r == -1 ==> forall k :: 0 <= k < |players| ==> !PausedNamed(players, name, MaxNameLen, k)
  {
    FindPausedFrom(players, name, MaxNameLen, 0)
  }

  /** The corrected lookup the rest of the model uses: it compares as
      many bytes as a stored name can hold (31), so the lowest paused
      slot whose stored name equals the requested name truncated to 31
      bytes is found. */
  function FindPausedByName(players: seq<Player>, name: seq<U8>): (r: int)
    ensures -1 <= r < |players|
    ensures r != -1 ==> PausedNamed(players, name, StoredNameMax, r) &&
                        forall k :: 0 <= k < r ==> !PausedNamed(players, name, StoredNameMax, k)
    ensures r == -1 ==> forall k :: 0 <= k < |players| ==> !PausedNamed(players, name, StoredNameMax, k)
  {
    FindPausedFrom(players, name, StoredNameMax, 0)
  }

  /** A name of 32 or more bytes is stored truncated to 31 bytes, and the
      32-byte comparison then never matches it: the player cannot be
      resumed by the name they joined with. */
  lemma LongNameNeverMatches(stored: seq<U8>, name: seq<U8>)
    requires |name| >= MaxNameLen && stored == Take(name, StoredNameMax)
    ensures !StrnEq(stored, name, MaxNameLen)
  {
    assert |Take(stored, MaxNameLen)| == StoredNameMax;
    assert |Take(name, MaxNameLen)| == MaxNameLen;
  }

  /** With the 31-byte comparison the stored form of every name matches
      the name it was stored from. */
  lemma StoredNameMatches(name: seq<U8>)
    ensures StrnEq(Take(name, StoredNameMax), name, StoredNameMax)
  {
  }

  /** The corrected lookup finds a paused player by the name it joined
      with, whatever that name's length: it returns a joined, paused slot
      no later than that player's. */
  lemma CorrectedFindsPaused(players: seq<Player>, name: seq<U8>, p: nat)
    requires p < |players| && players[p].joined && players[p].paused
    requires players[p].name == Take(name, StoredNameMax)
    ensures 0 <= FindPausedByName(players, name) <= p
  {
    StoredNameMatches(name);
    assert PausedNamed(players, name, StoredNameMax, p);
  }

  // ---------------------------------------------------------------------
  // Glyphs

  /** player_head_char: 'A'..'Z' for slots 0..25, '0'..'9' for 26..35,
      '@' beyond. */
  function HeadChar(slot: int): char {
    if 0 <= slot < 26 then ('A' as int + slot) as char
    else if 0 <= slot - 26 < 10 then ('0' as int + slot - 26) as char
    else '@'
  }

  /** player_body_char: 'a'..'z' for slots 0..25, '0'..'9' for 26..35,
      '+' beyond. */
  function BodyChar(slot: int): char {
    if 0 <= slot < 26 then ('a' as int + slot) as char
    else if 0 <= slot - 26 < 10 then ('0' as int + slot - 26) as char
    else '+'
  }

  /** The first 36 slots get pairwise distinct head glyphs and pairwise
      distinct body glyphs; every later slot shares the fallback. */
  lemma GlyphsDistinct(a: int, b: int)
    requires 0 <= a < 36 && 0 <= b < 36 && a != b
    ensures HeadChar(a) != HeadChar(b) && BodyChar(a) != BodyChar(b)
    ensures HeadChar(a) != '@' && BodyChar(a) != '+'
  {
  }

  /** The head and body glyphs differ for slots 0..25 but coincide for
      slots 26..35; slot 23's body glyph is the corpse marker 'x'. */
  lemma GlyphCoincidences(slot: int)
    requires 0 <= slot < 36
    ensures HeadChar(slot) == BodyChar(slot) <==> 26 <= slot
    ensures BodyChar(slot) == 'x' <==> slot == 23
  {
  }

  // ---------------------------------------------------------------------
  // Timer readouts

  const MaxU32: U32 := 0xFFFF_FFFF

  /** game_get_elapsed_ms: time since the start, saturated to 32 bits;
      zero while the start time is unset. */
  function ElapsedMs(start: U64, now: U64): (r: U32)
    ensures start == 0 ==> r == 0
    ensures start != 0 && start <= now && now - start <= MaxU32 ==> r == now - start
    ensures start != 0 && start <= now && now - start > MaxU32 ==> r == MaxU32
    ensures start != 0 && now < start && start - now <= Two64 - Two32 ==> r == MaxU32
    ensures start != 0 && now < start && start - now > Two64 - Two32 ==> r == now - start + Two64
  {
    if start == 0 then 0
    else
      var diff := SubU64(now, start);
      if diff > MaxU32 then MaxU32 else diff
  }

  /** game_get_remaining_ms: time left until the deadline in timed mode,
      saturated to 32 bits; zero in standard mode, with no deadline, or
      once the deadline has passed. */
  function RemainingMs(mode: GameMode, timedEnd: U64, now: U64): (r: U32)
    ensures r != 0 <==> mode == Timed && timedEnd != 0 && now < timedEnd
    ensures mode == Timed && timedEnd != 0 && now < timedEnd && timedEnd - now <= MaxU32 ==>
              r == timedEnd - now
    ensures mode == Timed && timedEnd != 0 && now < timedEnd && timedEnd - now > MaxU32 ==>
              r == MaxU32
  {
    if mode != Timed then 0
    else if timedEnd == 0 then 0
    else if now >= timedEnd then 0
    else
      var rem := timedEnd - now;
      if rem > MaxU32 then MaxU32 else rem
  }

  /** With the deadline set `d` milliseconds after the start, the two
      readouts add up to `d` while the game runs. */
  lemma ElapsedPlusRemaining(start: U64, d: U32, now: U64)
    requires start != 0 && start + d < Two64 && start <= now < start + d
    ensures ElapsedMs(start, now) + RemainingMs(Timed, AddU64(start, d), now) == d
  {
  }
}
