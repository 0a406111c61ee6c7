/** The simulation's records: a board position, one player slot, and the
    whole world that every engine operation reads and updates. */
module World {
  import opened Protocol

  const MaxPlayers: nat := 64
  const MaxNameLen: nat := 32
  const MaxSnakeLen: nat := 64

  /** A board cell; both coordinates are bytes, so arithmetic on them wraps. */
  datatype Pos = Pos(x: U8, y: U8)

  /** One player slot. `cells` is the whole fixed 64-entry body buffer;
      the snake is its first `len` entries. Entries past `len` keep
      whatever was last written there. `name` is the stored C string
      without its terminator. */
  datatype Player = Player(
    active: bool,
    joined: bool,
    alive: bool,
    paused: bool,
    name: seq<U8>,
    score: U16,
    cur: U8,
    req: U8,
    len: nat,
    cells: seq<Pos>,
    freezeUntil: U64)

  /** The shared game record. `food` is the live prefix of the 64-entry
      food buffer; `randCalls` counts the calls made so far to the
      pseudo-random source, which is an oracle outside the record. */
  datatype World = World(
    tick: U32,
    width: U8,
    height: U8,
    food: seq<Pos>,
    mode: GameMode,
    start: U64,
    timedEnd: U64,
    lastNoSnakes: U64,
    terminate: bool,
    players: seq<Player>,
    randCalls: nat)

  /** Joined and alive: the players that move, collide and count. */
  predicate Live(pl: Player) {
    pl.joined && pl.alive
  }

  /** A C string as stored: no NUL byte inside. */
  predicate NulFree(s: seq<U8>) {
    forall i :: 0 <= i < |s| ==> s[i] != 0
  }

  /** The fixed capacities of the records: 64 slots, a 64-entry body
      buffer per slot, at most 64 food cells, and every joined snake at
      least three cells long. */
  predicate PlayerShape(pl: Player) {
    |pl.cells| == MaxSnakeLen && pl.len <= MaxSnakeLen && (pl.joined ==> 3 <= pl.len)
  }

  predicate ShapeOk(w: World) {
    |w.players| == MaxPlayers && |w.food| <= MaxPlayers &&
    forall s :: 0 <= s < |w.players| ==> PlayerShape(w.players[s])
  }
}
