/** The client slot table of server/main.c: entry i holds the socket of
    the client bound to player slot i, or a negative value when the slot
    has no connection. Socket descriptors are plain integers here. */
module Slots {

  /** MAX_CLIENTS: one table entry per player slot. */
  const MaxClients: nat := 64

  /** The marker of an entry without a connection. */
  const NoFd: int := -1

  /** The lowest index from `i` on whose entry is negative, or -1. */
  function FirstFree(fds: seq<int>, i: nat): (r: int)
    requires i <= |fds|
    decreases |fds| - i
    ensures r == -1 || i <= r < |fds|
    ensures r == -1 <==> forall j :: i <= j < |fds| ==> fds[j] >= 0
    ensures r != -1 ==> fds[r] < 0 && forall j :: i <= j < r ==> fds[j] >= 0
  {
    if i == |fds| then -1
    else if fds[i] < 0 then i
    else FirstFree(fds, i + 1)
  }

  /** server_add_client: bind `fd` to the lowest free entry and return
      the new table and that index, or the table unchanged and -1. */
  function Added(fds: seq<int>, fd: int): (seq<int>, int) {
    var i := FirstFree(fds, 0);
    if i == -1 then (fds, -1) else (fds[i := fd], i)
  }

  /** server_close_slot_fd: an entry holding a socket becomes -1; a free
      entry keeps its value. */
  function Closed(fds: seq<int>, slot: nat): seq<int>
    requires slot < |fds|
  {
    if fds[slot] >= 0 then fds[slot := NoFd] else fds
  }

  /** The lowest index from `i` on whose entry is `fd`, or -1. */
  function FindFrom(fds: seq<int>, fd: int, i: nat): (r: int)
    requires i <= |fds|
    decreases |fds| - i
    ensures r == -1 || i <= r < |fds|
    ensures r == -1 <==> forall j :: i <= j < |fds| ==> fds[j] != fd
    ensures r != -1 ==> fds[r] == fd && forall j :: i <= j < r ==> fds[j] != fd
  {
    if i == |fds| then -1
    else if fds[i] == fd then i
    else FindFrom(fds, fd, i + 1)
  }

  /** find_slot_by_fd. */
  function SlotOf(fds: seq<int>, fd: int): int {
    FindFrom(fds, fd, 0)
  }

  /** migrate_client_slot: the socket of `from` moves to `to` and `from`
      becomes free; nothing happens when the two are the same. */
  function Migrated(fds: seq<int>, from: nat, to: nat): seq<int>
    requires from < |fds| && to < |fds|
  {
    if from == to then fds else fds[from := NoFd][to := fds[from]]
  }

  /** No socket is bound to two entries. */
  predicate Distinct(fds: seq<int>) {
    forall i, j :: 0 <= i < j < |fds| && fds[i] >= 0 ==> fds[i] != fds[j]
  }

  /** server_add_client fails iff every entry holds a socket, and then
      changes nothing; otherwise it binds the lowest free entry and no
      other. */
  lemma AddedEffect(fds: seq<int>, fd: int)
    ensures Added(fds, fd).1 == -1 <==> forall i :: 0 <= i < |fds| ==> fds[i] >= 0
    ensures Added(fds, fd).1 == -1 ==> Added(fds, fd).0 == fds
    ensures Added(fds, fd).1 != -1 ==>
      var slot := Added(fds, fd).1;
      0 <= slot < |fds| && fds[slot] < 0 && (forall i :: 0 <= i < slot ==> fds[i] >= 0) &&
      Added(fds, fd).0 == fds[slot := fd]
  {
  }

  /** A new socket is found again at the entry it was bound to, and the
      table keeps every socket on one entry. */
  lemma {:induction false} AddThenFind(fds: seq<int>, fd: int)
    requires Distinct(fds) && fd >= 0 && fd !in fds && Added(fds, fd).1 != -1
    ensures SlotOf(Added(fds, fd).0, fd) == Added(fds, fd).1
    ensures Distinct(Added(fds, fd).0)
  {
    var slot := Added(fds, fd).1;
    var t := Added(fds, fd).0;
    assert forall j :: 0 <= j < slot ==> t[j] == fds[j] && fds[j] != fd;
    assert t[slot] == fd;
  }

  /** Closing a slot frees it and touches no other entry; closing the
      entry a new socket was bound to restores a table whose free entry
      held -1. */
  lemma ClosedEffect(fds: seq<int>, slot: nat, fd: int)
    requires slot < |fds|
    ensures Closed(fds, slot)[slot] < 0
    ensures |Closed(fds, slot)| == |fds| &&
            forall i :: 0 <= i < |fds| && i != slot ==> Closed(fds, slot)[i] == fds[i]
    ensures fd >= 0 && Added(fds, fd).1 == slot && fds[slot] == NoFd ==>
            Closed(Added(fds, fd).0, slot) == fds
  {
  }

  /** Migration moves the socket and frees its old entry; when the socket
      was bound to `from` only, it is then found at `to`. */
  lemma {:induction false} MigratedEffect(fds: seq<int>, from: nat, to: nat)
    requires from < |fds| && to < |fds| && from != to
    ensures Migrated(fds, from, to)[to] == fds[from] && Migrated(fds, from, to)[from] == NoFd
    ensures forall i :: 0 <= i < |fds| && i != from && i != to ==> Migrated(fds, from, to)[i] == fds[i]
    ensures Distinct(fds) && fds[from] >= 0 ==> SlotOf(Migrated(fds, from, to), fds[from]) == to
    ensures Distinct(fds) ==> Distinct(Migrated(fds, from, to))
  {
  }

  /** Closing keeps every socket on one entry, and the closed socket is
      no longer found. */
  lemma ClosedDistinct(fds: seq<int>, slot: nat)
    requires slot < |fds| && Distinct(fds)
    ensures Distinct(Closed(fds, slot))
    ensures fds[slot] >= 0 ==> SlotOf(Closed(fds, slot), fds[slot]) == -1
  {
    if fds[slot] >= 0 {
      var t := Closed(fds, slot);
      forall j | 0 <= j < |t|
        ensures t[j] != fds[slot]
      {
        if j < slot {
          assert fds[j] < 0 || fds[j] != fds[slot];
        }
      }
    }
  }
}
