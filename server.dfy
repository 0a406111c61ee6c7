/** The decision logic of server/main.c once the sockets are abstracted
    away: a session is the game record, the client slot table and the
    running flag; a message arrives as its header fields and the payload
    bytes that could be read after it, and the answer is a Reply. */
module Server {
  import opened Protocol
  import opened World
  import opened Rules
  import opened Engine
  import opened Slots
  import Render

  /** MAX_JOIN_NAME: a JOIN payload must be shorter than this. */
  const MaxJoinName: nat := 256

  const FullText: string := "server full"
  const BadJoinText: string := "bad JOIN length"
  const JoinFailedText: string := "JOIN failed"
  const ResumedText: string := "RESUMED (3s freeze) | WASD move | p pause | q leave"
  const WelcomeText: string := "WELCOME | WASD move | p pause | q leave"
  const BadInputText: string := "bad INPUT length"
  const UnknownText: string := "unknown message type"

  datatype Session = Session(world: World, fds: seq<int>, running: bool)

  /** What the server does towards the client: nothing; shut the
      connection down without a message; or send one message of type
      `kind`, shutting the connection down after it when `close`. */
  datatype Reply = Quiet | Dropped | Send(kind: U16, text: string, close: bool)

  /** The invariant of a session: the game invariant, a 64-entry table,
      and no socket bound to two entries. */
  predicate SessionOk(st: Session) {
    WorldOk(st.world) && |st.fds| == MaxClients && Distinct(st.fds)
  }

  /** The C string held in a received buffer: the bytes before the first
      NUL, or all of them. */
  function CName(bytes: seq<U8>): (r: seq<U8>)
    ensures |r| <= |bytes| && r == bytes[..|r|] && NulFree(r)
    ensures |r| < |bytes| ==> bytes[|r|] == 0
  {
    if bytes == [] || bytes[0] == 0 then []
    else
      var rest := CName(bytes[1..]);
      assert [bytes[0]] + rest == bytes[..1 + |rest|];
      [bytes[0]] + rest
  }

  /** server_init: every entry free, the game initialised, the start time
      stamped and, in timed mode, the deadline `duration` milliseconds
      ahead with 64-bit wrap-around. */
  function ServerInit(width: U8, height: U8, mode: GameMode, duration: U32, now: U64): Session {
    var w := Init(width, height, mode).(start := now);
    Session(if mode == Timed then w.(timedEnd := AddU64(now, duration)) else w,
            seq(MaxClients, _ => NoFd), true)
  }

  /** A new connection: bind it to the lowest free slot and mark that
      slot active, or answer "server full" and close it. */
  function Accept(st: Session, fd: int): (Session, Reply)
    requires ShapeOk(st.world)
  {
    var (fds, slot) := Added(st.fds, fd);
    if slot == -1 then (st, Send(MsgError, FullText, true))
    else (st.(fds := fds, world := MarkActive(st.world, slot)), Quiet)
  }

  /** handle_client_message for a client whose header has been read:
      `len` is the payload length from the header and `payload` the bytes
      that can be read after it (fewer than needed means the read fails). */
  function Dispatch(st: Session, fd: int, kind: U16, len: U16, payload: seq<U8>, now: U64, rand: nat -> nat): (Session, Reply)
    requires ShapeOk(st.world) && |st.fds| == MaxClients
  {
    var slot := SlotOf(st.fds, fd);
    if slot < 0 then (st, Dropped)
    else if kind == MsgShutdown then (st.(running := false), Quiet)
    else if kind == MsgPause then
      (st.(fds := Closed(st.fds, slot), world := MarkInactive(Pause(st.world, slot), slot, true)), Quiet)
    else if kind == MsgLeave then
      (st.(fds := Closed(st.fds, slot), world := Leave(st.world, slot, rand)), Quiet)
    else if kind == MsgJoin then JoinMessage(st, slot, len, payload, now, rand)
    else if kind == MsgInput then
      if len != InputMessageSize as int then (st, Send(MsgError, BadInputText, true))
      else if |payload| < 1 then (st, Dropped)
      else (st.(world := Input(st.world, slot, payload[0])), Quiet)
    else (st, Send(MsgError, UnknownText, false))
  }

  /** The JOIN branch for the client in `slot`. */
  function JoinMessage(st: Session, slot: nat, len: U16, payload: seq<U8>, now: U64, rand: nat -> nat): (Session, Reply)
    requires ShapeOk(st.world) && |st.fds| == MaxClients && slot < MaxClients
  {
    if len == 0 || len >= MaxJoinName then (st, Send(MsgError, BadJoinText, true))
    else if |payload| < len then (st, Dropped)
    else
      var name := CName(payload[..len]);
      var paused := FindPausedAsWritten(st.world.players, name);
      if paused >= 0 && paused != slot then
        (Session(ResumeElsewhere(st.world, slot, paused, now, rand), Migrated(st.fds, slot, paused), st.running),
         Send(MsgWelcome, ResumedText, false))
      else
        var (w, rc) := Join(st.world, slot, name, now, rand);
        (st.(world := w), if rc < 0 then Send(MsgError, JoinFailedText, true) else Send(MsgWelcome, WelcomeText, false))
  }

  /** The resume path of JOIN on the game record: the requesting slot is
      cleared, the paused slot marked active and resumed. */
  function ResumeElsewhere(w: World, slot: nat, paused: nat, now: U64, rand: nat -> nat): World
    requires ShapeOk(w)
  {
    Resume(MarkActive(MarkInactive(w, slot, false), paused), paused, now, rand).0
  }

  /** A closed connection: its slot is freed and the player kept when
      paused, cleared otherwise. */
  function Disconnect(st: Session, fd: int): Session
    requires ShapeOk(st.world) && |st.fds| == MaxClients
  {
    var slot := SlotOf(st.fds, fd);
    if slot < 0 then st
    else
      var keep := st.world.players[slot].paused;
      st.(fds := Closed(st.fds, slot), world := MarkInactive(st.world, slot, keep))
  }

  // ---------------------------------------------------------------------
  // fill_state_player_list

  /** One row of the player table of a STATE message. */
  datatype PlayerInfo = PlayerInfo(used: bool, joined: bool, alive: bool, paused: bool, score: U16, name: seq<U8>)

  /** The row of one player: the flags and the score copied, the name cut
      at its NUL and at 31 bytes. */
  function Info(pl: Player): PlayerInfo {
    PlayerInfo(pl.joined, pl.joined, pl.alive, pl.paused, pl.score, Take(CName(pl.name), StateNameMax - 1))
  }

  function PlayerList(players: seq<Player>): seq<PlayerInfo> {
    seq(|players|, i requires 0 <= i < |players| => Info(players[i]))
  }

  /** A row is in use iff its slot has joined; it carries the slot's
      flags and score, and a name of at most 31 bytes that is the stored
      name whenever the stored name fits. */
  lemma PlayerListEffect(players: seq<Player>, i: int)
    requires 0 <= i < |players| && NulFree(players[i].name)
    ensures var info := PlayerList(players)[i]; var pl := players[i];
      info.used == pl.joined && info.joined == pl.joined && info.alive == pl.alive &&
      info.paused == pl.paused && info.score == pl.score &&
      |info.name| < StateNameMax && info.name <= pl.name &&
      (|pl.name| < StateNameMax ==> info.name == pl.name)
  {
    CNameOfNulFree(players[i].name);
  }

  /** A buffer without NUL bytes is read back whole. */
  lemma {:induction false} CNameOfNulFree(s: seq<U8>)
    requires NulFree(s)
    ensures CName(s) == s
  {
    if s != [] {
      CNameOfNulFree(s[1..]);
      assert s == [s[0]] + s[1..];
    }
  }

  // ---------------------------------------------------------------------
  // One round of the tick thread

  /** The STATE message broadcast after a tick. */
  datatype StateMessage = StateMessage(width: U8, height: U8, mode: GameMode, tick: U32,
                                       elapsed: U32, remaining: U32,
                                       players: seq<PlayerInfo>, cells: seq<char>)

  /** One round of server_tick_thread: the game advances one tick, the
      server stops once the game asks to terminate, and the snapshot is
      taken from the advanced record. */
  function TickRound(st: Session, now: U64, rand: nat -> nat): (Session, StateMessage)
    requires SessionOk(st)
  {
    TickEffect(st.world, now, rand);
    var w := Engine.Tick(st.world, now, rand);
    (st.(world := w, running := st.running && !w.terminate), StateOf(w, now))
  }

  /** The STATE message of a game record at time `now`. */
  function StateOf(w: World, now: U64): StateMessage
    requires ShapeOk(w) && 1 <= w.width && 1 <= w.height
  {
    StateMessage(w.width, w.height, w.mode, w.tick, ElapsedMs(w.start, now),
                 RemainingMs(w.mode, w.timedEnd, now), PlayerList(w.players), Render.Render(w))
  }

  /** A round keeps the session invariant and the slot table, stops the
      server for good once termination is flagged, and broadcasts a
      snapshot of the advanced record: its tick counter, one row per slot
      and the full 80x40 grid. */
  lemma TickRoundEffect(st: Session, now: U64, rand: nat -> nat)
    requires SessionOk(st)
    ensures var (r, msg) := TickRound(st, now, rand);
      SessionOk(r) && r.fds == st.fds &&
      (r.running <==> st.running && !r.world.terminate) &&
      (st.world.terminate ==> !r.running) &&
      msg.width == st.world.width && msg.height == st.world.height &&
      msg.tick == (st.world.tick + 1) % Two32 &&
      |msg.players| == MaxPlayers && |msg.cells| == StateMaxCells &&
      (forall i :: 0 <= i < MaxPlayers ==> msg.players[i].used == r.world.players[i].joined)
  {
    TickEffect(st.world, now, rand);
  }

  // ---------------------------------------------------------------------
  // Properties of the dispatch rules

  lemma MarkActiveOk(w: World, slot: int)
    requires WorldOk(w)
    ensures WorldOk(MarkActive(w, slot))
  {
    if 0 <= slot < MaxPlayers {
      var r := MarkActive(w, slot);
      assert forall s :: 0 <= s < MaxPlayers && s != slot ==> r.players[s] == w.players[s];
      assert PlayerOk(w.width, w.height, w.players[slot]);
    }
  }

  lemma PauseOk(w: World, slot: int)
    requires WorldOk(w)
    ensures WorldOk(Pause(w, slot))
  {
    if 0 <= slot < MaxPlayers && w.players[slot].joined {
      var r := Pause(w, slot);
      assert forall s :: 0 <= s < MaxPlayers && s != slot ==> r.players[s] == w.players[s];
      assert PlayerOk(w.width, w.height, w.players[slot]);
    }
  }

  /** server_init leaves every entry free, a valid game with nothing on
      the board, the start time stamped, and a deadline set exactly in
      timed mode. */
  lemma ServerInitEffect(width: U8, height: U8, mode: GameMode, duration: U32, now: U64)
    requires 2 <= width <= StateMaxWidth && 2 <= height <= StateMaxHeight
    ensures var st := ServerInit(width, height, mode, duration, now);
      SessionOk(st) && st.running && st.world.start == now &&
      (forall i :: 0 <= i < MaxClients ==> st.fds[i] < 0) &&
      CountAlive(st.world.players) == 0 && st.world.food == [] &&
      st.world.timedEnd == (if mode == Timed then AddU64(now, duration) else 0)
  {
    InitOk(width, height, mode);
  }

  /** A new connection takes the lowest free slot, which becomes active
      and is found again by its socket; with every slot taken the server
      answers "server full" and nothing changes. */
  lemma AcceptEffect(st: Session, fd: int)
    requires SessionOk(st) && fd >= 0 && fd !in st.fds
    ensures var (r, reply) := Accept(st, fd);
      SessionOk(r) && r.running == st.running &&
      ((forall i :: 0 <= i < MaxClients ==> st.fds[i] >= 0) <==> reply == Send(MsgError, FullText, true)) &&
      (reply != Quiet ==> r == st) &&
      (reply == Quiet ==>
         var slot := SlotOf(r.fds, fd);
         0 <= slot < MaxClients && st.fds[slot] < 0 && (forall i :: 0 <= i < slot ==> st.fds[i] >= 0) &&
         r.world.players[slot].active)
  {
    AddedEffect(st.fds, fd);
    var slot := Added(st.fds, fd).1;
    if slot != -1 {
      AddThenFind(st.fds, fd);
      MarkActiveOk(st.world, slot);
    }
  }

  /** A JOIN whose length field is 0 or at least 256, and an INPUT whose
      length field is not 1, are answered with an error and a shutdown and
      change nothing. */
  lemma BadLengthRejected(st: Session, fd: int, kind: U16, len: U16, payload: seq<U8>, now: U64, rand: nat -> nat)
    requires ShapeOk(st.world) && |st.fds| == MaxClients && SlotOf(st.fds, fd) >= 0
    ensures kind == MsgJoin && (len == 0 || len >= MaxJoinName) ==>
      Dispatch(st, fd, kind, len, payload, now, rand) == (st, Send(MsgError, BadJoinText, true))
    ensures kind == MsgInput && len != 1 ==>
      Dispatch(st, fd, kind, len, payload, now, rand) == (st, Send(MsgError, BadInputText, true))
  {
  }

  /** Resume by name: when a joined, paused slot other than the
      requester's carries the name, the socket moves to that slot, which
      becomes active and unpaused and keeps its name, score and body; the
      requesting slot is cleared and freed. */
  lemma {:induction false} JoinResumes(st: Session, slot: nat, len: U16, payload: seq<U8>, now: U64, rand: nat -> nat)
    requires SessionOk(st) && slot < MaxClients && st.fds[slot] >= 0
    requires 0 < len < MaxJoinName && |payload| >= len
    requires var p := FindPausedAsWritten(st.world.players, CName(payload[..len])); p >= 0 && p != slot
    ensures var p := FindPausedAsWritten(st.world.players, CName(payload[..len]));
      var (r, reply) := JoinMessage(st, slot, len, payload, now, rand);
      reply == Send(MsgWelcome, ResumedText, false) && SessionOk(r) &&
      SlotOf(r.fds, st.fds[slot]) == p && r.fds[slot] < 0 &&
      r.world.players[p] == st.world.players[p].(active := true, paused := false, freezeUntil := AddU64(now, ResumeFreezeMs)) &&
      !r.world.players[slot].joined && !r.world.players[slot].active
  {
    var p := FindPausedAsWritten(st.world.players, CName(payload[..len]));
    var w1 := MarkInactive(st.world, slot, false);
    MarkInactiveEffect(st.world, slot, false);
    var w2 := MarkActive(w1, p);
    MarkActiveOk(w1, p);
    ResumeKeepsPlayer(w2, p, now, rand);
    MigratedEffect(st.fds, slot, p);
  }

  /** Otherwise the JOIN is a new join on the requester's own slot, with
      the table untouched: success is answered with the welcome text and
      failure with "JOIN failed" and a shutdown. */
  lemma JoinNew(st: Session, slot: nat, len: U16, payload: seq<U8>, now: U64, rand: nat -> nat)
    requires SessionOk(st) && slot < MaxClients
    requires 0 < len < MaxJoinName && |payload| >= len
    requires var p := FindPausedAsWritten(st.world.players, CName(payload[..len])); p < 0 || p == slot
    ensures var name := CName(payload[..len]);
      var (r, reply) := JoinMessage(st, slot, len, payload, now, rand);
      SessionOk(r) && r.fds == st.fds && r.world == Join(st.world, slot, name, now, rand).0 &&
      (reply == Send(MsgWelcome, WelcomeText, false) <==> Join(st.world, slot, name, now, rand).1 == 0) &&
      (reply != Send(MsgWelcome, WelcomeText, false) ==> reply == Send(MsgError, JoinFailedText, true))
  {
    JoinSucceeds(st.world, slot, CName(payload[..len]), now, rand);
  }

  /** The paused-player search does not look at the active flag, whatever
      the comparison width. */
  lemma {:induction false} FindPausedIgnoresActive(players: seq<Player>, slot: nat, name: seq<U8>, n: nat, i: nat)
    requires slot < |players| && i <= |players|
    decreases |players| - i
    ensures FindPausedFrom(players[slot := players[slot].(active := false)], name, n, i) ==
            FindPausedFrom(players, name, n, i)
  {
    if i < |players| {
      FindPausedIgnoresActive(players, slot, name, n, i + 1);
    }
  }

  /** On disconnect the slot is freed and its player kept exactly when
      paused (only the active flag drops), so the lookup by name, as
      written and corrected alike, finds the same slot as before;
      otherwise the player is cleared. */
  lemma DisconnectEffect(st: Session, fd: int, name: seq<U8>)
    requires SessionOk(st) && fd >= 0 && SlotOf(st.fds, fd) >= 0
    ensures var slot := SlotOf(st.fds, fd); var r := Disconnect(st, fd);
      var pl := st.world.players[slot];
      SessionOk(r) && r.fds[slot] < 0 && SlotOf(r.fds, fd) == -1 &&
      (pl.paused ==> r.world.players[slot] == pl.(active := false) &&
                     FindPausedAsWritten(r.world.players, name) == FindPausedAsWritten(st.world.players, name) &&
                     FindPausedByName(r.world.players, name) == FindPausedByName(st.world.players, name)) &&
      (!pl.paused ==> r.world.players[slot] == Cleared(pl))
  {
    var slot := SlotOf(st.fds, fd);
    MarkInactiveEffect(st.world, slot, st.world.players[slot].paused);
    ClosedDistinct(st.fds, slot);
    if st.world.players[slot].paused {
      FindPausedIgnoresActive(st.world.players, slot, name, MaxNameLen, 0);
      FindPausedIgnoresActive(st.world.players, slot, name, StoredNameMax, 0);
    }
  }

  /** Under the invariant a JOIN whose name has 32 bytes or more never
      resumes a paused player: every stored name is at most 31 bytes, so
      the 32-byte comparison fails on each one, and the JOIN is a new join
      on the requester's own slot. */
  lemma LongNameJoinsNew(st: Session, slot: nat, len: U16, payload: seq<U8>, now: U64, rand: nat -> nat)
    requires SessionOk(st) && slot < MaxClients
    requires 0 < len < MaxJoinName && |payload| >= len && |CName(payload[..len])| >= MaxNameLen
    ensures FindPausedAsWritten(st.world.players, CName(payload[..len])) == -1
    ensures JoinMessage(st, slot, len, payload, now, rand).0 ==
            st.(world := Join(st.world, slot, CName(payload[..len]), now, rand).0)
  {
    var name := CName(payload[..len]);
    forall k | 0 <= k < |st.world.players|
      ensures !PausedNamed(st.world.players, name, MaxNameLen, k)
    {
      var stored := st.world.players[k].name;
      assert |stored| <= StoredNameMax;
      assert |Take(stored, MaxNameLen)| < |Take(name, MaxNameLen)|;
    }
  }

  /** PAUSE keeps the player, paused and inactive, and frees the slot. */
  lemma PauseMessageEffect(st: Session, fd: int, len: U16, payload: seq<U8>, now: U64, rand: nat -> nat)
    requires SessionOk(st) && SlotOf(st.fds, fd) >= 0
    ensures var slot := SlotOf(st.fds, fd); var pl := st.world.players[slot];
      var (r, reply) := Dispatch(st, fd, MsgPause, len, payload, now, rand);
      reply == Quiet && SessionOk(r) && r.fds[slot] < 0 &&
      r.world.players[slot] == (if pl.joined then pl.(paused := true) else pl).(active := false)
  {
    var slot := SlotOf(st.fds, fd);
    assert Dispatch(st, fd, MsgPause, len, payload, now, rand) ==
      (st.(fds := Closed(st.fds, slot), world := MarkInactive(Pause(st.world, slot), slot, true)), Quiet);
    ClosedDistinct(st.fds, slot);
    PauseOk(st.world, slot);
    MarkInactiveEffect(Pause(st.world, slot), slot, true);
  }

  /** LEAVE frees the slot and clears the player. */
  lemma LeaveMessageEffect(st: Session, fd: int, len: U16, payload: seq<U8>, now: U64, rand: nat -> nat)
    requires SessionOk(st) && SlotOf(st.fds, fd) >= 0
    ensures var slot := SlotOf(st.fds, fd);
      var (r, reply) := Dispatch(st, fd, MsgLeave, len, payload, now, rand);
      reply == Quiet && SessionOk(r) && r.fds[slot] < 0 &&
      !r.world.players[slot].joined && !r.world.players[slot].active
  {
    var slot := SlotOf(st.fds, fd);
    assert Dispatch(st, fd, MsgLeave, len, payload, now, rand) ==
      (st.(fds := Closed(st.fds, slot), world := Leave(st.world, slot, rand)), Quiet);
    ClosedDistinct(st.fds, slot);
    LeaveEffect(st.world, slot, rand);
  }

  /** Every message from an open socket keeps the session invariant. */
  lemma DispatchOk(st: Session, fd: int, kind: U16, len: U16, payload: seq<U8>, now: U64, rand: nat -> nat)
    requires SessionOk(st) && fd >= 0
    ensures SessionOk(Dispatch(st, fd, kind, len, payload, now, rand).0)
  {
    var slot := SlotOf(st.fds, fd);
    if slot >= 0 {
      if kind == MsgPause {
        PauseMessageEffect(st, fd, len, payload, now, rand);
      } else if kind == MsgLeave {
        LeaveMessageEffect(st, fd, len, payload, now, rand);
      } else if kind == MsgJoin && 0 < len < MaxJoinName && |payload| >= len {
        var p := FindPausedAsWritten(st.world.players, CName(payload[..len]));
        if p >= 0 && p != slot {
          JoinResumes(st, slot, len, payload, now, rand);
        } else {
          JoinNew(st, slot, len, payload, now, rand);
        }
      } else if kind == MsgInput && len == 1 && |payload| >= 1 {
        InputEffect(st.world, slot, payload[0]);
      }
    }
  }
}
