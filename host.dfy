/** server_context_t of server/main.c as a mutable object: the game
    record, the 64-entry client slot table updated in place, and the
    running flag. Every handler is proved to leave the context equal to
    what the matching function of the Server module computes from the
    old one; sockets are descriptors only, and what the server sends back
    is returned as a Reply. */
module Host {
  import opened Protocol
  import opened World
  import opened Engine
  import opened Rules
  import opened Slots
  import opened Server
  import opened Game

  class ServerContext {
    const game: GameState
    /** client_slots[i].client_socket_fd. */
    const slots: array<int>
    var running: bool

    /** The context as a Session value. */
    ghost function Snapshot(): Session
      reads this, game, game.food, game.players, slots
      requires game.foodCount <= game.food.Length
    {
      Session(game.Model(), slots[..], running)
    }

    /** The buffers have their fixed sizes. */
    ghost predicate Shaped()
      reads this, game, game.food, game.players, slots
    {
      game.Shaped() && slots.Length == MaxClients
    }

    /** The session invariant holds. */
    ghost predicate Valid()
      reads this, game, game.food, game.players, slots
    {
      Shaped() && SessionOk(Snapshot())
    }

    /** server_init: every slot free, the game initialised on a
        `width` x `height` board, the start time stamped and, in timed
        mode, the deadline set. The clock reading and the random source
        are parameters. */
    constructor (width: U8, height: U8, mode: GameMode, duration: U32, now: U64, source: nat -> nat)
      requires 2 <= width <= StateMaxWidth && 2 <= height <= StateMaxHeight
      ensures Valid() && fresh(game) && fresh(game.food) && fresh(game.players) && fresh(slots)
      ensures Snapshot() == ServerInit(width, height, mode, duration, now) && game.rand == source
    {
      var fds := FreeTable();
      var g := new GameState(width, height, mode, source);
      g.start := now;
      if mode == Timed {
        g.timedEnd := AddU64(now, duration);
      }
      slots := fds;
      running := true;
      game := g;
      new;
      ServerInitEffect(width, height, mode, duration, now);
    }

    /** server_add_client: bind `fd` to the lowest free slot and return 0
        with that slot, or -1 with slot -1 when every slot is taken. */
    method AddClient(fd: int) returns (rc: int, slot: int)
      requires Shaped()
      modifies slots
      ensures Shaped() && (slots[..], slot) == Added(old(slots[..]), fd)
      ensures rc == (if slot == -1 then -1 else 0)
    {
      for i := 0 to MaxClients
        invariant slots[..] == old(slots[..])
        invariant FirstFree(slots[..], 0) == FirstFree(slots[..], i)
      {
        if slots[i] < 0 {
          slots[i] := fd;
          return 0, i;
        }
      }
      return -1, -1;
    }

    /** server_close_slot_fd; closing the descriptor itself is I/O. */
    method CloseSlotFd(slot: nat)
      requires Shaped() && slot < MaxClients
      modifies slots
      ensures Shaped() && slots[..] == Closed(old(slots[..]), slot)
    {
      var fd := slots[slot];
      if fd >= 0 {
        slots[slot] := NoFd;
      }
    }

    /** find_slot_by_fd. */
    method FindSlotByFd(fd: int) returns (slot: int)
      requires Shaped()
      ensures slot == SlotOf(slots[..], fd)
      ensures slot == -1 <==> fd !in slots[..]
      ensures slot != -1 ==> 0 <= slot < MaxClients && slots[slot] == fd
    {
      for i := 0 to MaxClients
        invariant FindFrom(slots[..], fd, i) == SlotOf(slots[..], fd)
      {
        if slots[i] == fd {
          return i;
        }
      }
      return -1;
    }

    /** migrate_client_slot. */
    method MigrateClientSlot(from: nat, to: nat)
      requires Shaped() && from < MaxClients && to < MaxClients
      modifies slots
      ensures Shaped() && slots[..] == Migrated(old(slots[..]), from, to)
    {
      if from == to {
        return;
      }
      var fd := slots[from];
      slots[from] := NoFd;
      slots[to] := fd;
    }

    /** The accept branch of the main loop for a descriptor `fd` that
        accept returned: bind it and mark its slot active, or answer
        "server full" and close it. */
    method AcceptClient(fd: int) returns (reply: Reply)
      requires Shaped()
      modifies game.players, slots
      ensures Shaped() && (Snapshot(), reply) == Accept(old(Snapshot()), fd)
      ensures old(Valid()) && fd >= 0 && fd !in old(slots[..]) ==> Valid()
    {
      if Valid() && fd >= 0 && fd !in slots[..] {
        AcceptEffect(Snapshot(), fd);
      }
      var rc, slot := AddClient(fd);
      if rc == 0 {
        game.MarkActive(slot);
        return Quiet;
      }
      return Send(MsgError, FullText, true);
    }

    /** handle_client_message once the header of a message from `fd` has
        been read: `payload` holds the bytes that can be read after it. */
    method HandleClientMessage(fd: int, kind: U16, len: U16, payload: seq<U8>, now: U64) returns (reply: Reply)
      requires Shaped()
      modifies this, game, game.players, game.food, slots
      ensures Shaped() && (Snapshot(), reply) == Dispatch(old(Snapshot()), fd, kind, len, payload, now, game.rand)
      ensures old(Valid()) && fd >= 0 ==> Valid()
    {
      if Valid() && fd >= 0 {
        DispatchOk(Snapshot(), fd, kind, len, payload, now, game.rand);
      }
      var slot := FindSlotByFd(fd);
      if slot < 0 {
        return Dropped;
      }
      if kind == MsgShutdown {
        running := false;
        return Quiet;
      }
      if kind == MsgPause {
        game.HandlePause(slot);
        CloseSlotFd(slot);
        game.MarkInactive(slot, true);
        return Quiet;
      }
      if kind == MsgLeave {
        CloseSlotFd(slot);
        game.HandleLeave(slot);
        return Quiet;
      }
      if kind == MsgJoin {
        reply := HandleJoin(slot, len, payload, now);
        return;
      }
      if kind == MsgInput {
        if len != InputMessageSize {
          return Send(MsgError, BadInputText, true);
        }
        if |payload| < 1 {
          return Dropped;
        }
        game.HandleInput(slot, payload[0]);
        return Quiet;
      }
      return Send(MsgError, UnknownText, false);
    }

    /** The JOIN branch of handle_client_message for the client in
        `slot`: resume a paused player of that name elsewhere, or join
        on the client's own slot. */
    method HandleJoin(slot: nat, len: U16, payload: seq<U8>, now: U64) returns (reply: Reply)
      requires Shaped() && slot < MaxClients
      modifies game, game.players, game.food, slots
      ensures Shaped() && (Snapshot(), reply) == JoinMessage(old(Snapshot()), slot, len, payload, now, game.rand)
    {
      if len == 0 || len >= MaxJoinName {
        return Send(MsgError, BadJoinText, true);
      }
      if |payload| < len as int {
        return Dropped;
      }
      var name := CName(payload[..len]);
      var paused := game.FindPausedPlayerByName(name);
      if paused >= 0 && paused != slot {
        ResumeInto(slot, paused, now);
        return Send(MsgWelcome, ResumedText, false);
      }
      var rc := game.JoinNewPlayer(slot, name, now);
      if rc < 0 {
        return Send(MsgError, JoinFailedText, true);
      }
      return Send(MsgWelcome, WelcomeText, false);
    }

    /** The resume path of JOIN: the socket moves to the paused slot, the
        requesting slot is cleared, and the paused slot is marked active
        and resumed. */
    method ResumeInto(slot: nat, paused: nat, now: U64)
      requires Shaped() && slot < MaxClients && paused < MaxClients
      modifies game, game.players, game.food, slots
      ensures Shaped()
      ensures Snapshot() == old(Snapshot()).(world := ResumeElsewhere(old(game.Model()), slot, paused, now, game.rand),
                                             fds := Migrated(old(slots[..]), slot, paused))
    {
      MigrateClientSlot(slot, paused);
      game.MarkInactive(slot, false);
      game.MarkActive(paused);
      var _ := game.ResumePlayer(paused, now);
    }

    /** The disconnect branch of the main loop: free the slot of `fd` and
        keep its player when paused, clear it otherwise. */
    method Disconnect(fd: int)
      requires Shaped()
      modifies game.players, slots
      ensures Shaped() && Snapshot() == Server.Disconnect(old(Snapshot()), fd)
      ensures old(Valid()) && fd >= 0 ==> Valid()
    {
      if Valid() && fd >= 0 && SlotOf(slots[..], fd) >= 0 {
        DisconnectEffect(Snapshot(), fd, []);
      }
      var slot := FindSlotByFd(fd);
      if slot >= 0 {
        var keep := game.players[slot].paused;
        CloseSlotFd(slot);
        game.MarkInactive(slot, keep);
      }
    }

    /** One round of server_tick_thread: tick, stop on termination, and
        build the STATE message. */
    method TickRound(now: U64) returns (msg: StateMessage)
      requires Valid()
      modifies this, game, game.players, game.food
      ensures Valid() && (Snapshot(), msg) == Server.TickRound(old(Snapshot()), now, game.rand)
    {
      ghost var st := Snapshot();
      TickRoundEffect(st, now, game.rand);
      ghost var round := Server.TickRound(st, now, game.rand);
      Advance(now);
      assert Snapshot() == round.0;
      msg := BuildState(now);
    }

    /** The game tick and the running flag update of a round. */
    method Advance(now: U64)
      requires Shaped()
      modifies this, game, game.players, game.food
      ensures Shaped()
      ensures var w := Engine.Tick(old(game.Model()), now, game.rand);
        Snapshot() == old(Snapshot()).(world := w, running := old(running) && !w.terminate)
    {
      game.Tick(now);
      if game.terminate {
        running := false;
      }
    }

    /** The STATE message of the current record: the counters, the player
        table and the rendered grid. */
    method BuildState(now: U64) returns (msg: StateMessage)
      requires Shaped() && 1 <= game.width && 1 <= game.height
      ensures msg == StateOf(game.Model(), now)
    {
      var infos := new PlayerInfo[StateMaxPlayers];
      FillStatePlayerList(game.players, infos);
      var cells := new char[StateMaxCells];
      game.BuildAsciiMap(cells);
      msg := StateMessage(game.width, game.height, game.mode, game.tick,
                          ElapsedMs(game.start, now), RemainingMs(game.mode, game.timedEnd, now),
                          infos[..], cells[..]);
    }
  }

  /** The slot loop of server_init: a table with every entry free. */
  method FreeTable() returns (fds: array<int>)
    ensures fresh(fds) && fds[..] == seq(MaxClients, _ => NoFd)
  {
    fds := new int[MaxClients];
    for i := 0 to MaxClients
      invariant forall j :: 0 <= j < i ==> fds[j] == NoFd
    {
      fds[i] := NoFd;
    }
  }

  /** fill_state_player_list: one row per slot. */
  method FillStatePlayerList(players: array<Player>, out: array<PlayerInfo>)
    requires players.Length == out.Length
    modifies out
    ensures out[..] == PlayerList(players[..])
  {
    for i := 0 to out.Length
      invariant forall j :: 0 <= j < i ==> out[j] == Info(players[j])
    {
      var pl := players[i];
      out[i] := PlayerInfo(pl.joined, pl.joined, pl.alive, pl.paused, pl.score, Take(CName(pl.name), StateNameMax - 1));
    }
  }
}
