/** How 32 slots hold the map of streams. */
module Slots {
  import opened Bytes
  import opened Streams

  datatype Slot = Slot(active: bool, id: u32, fd: int, clientFin: bool, targetFin: bool)

  function StreamIn(s: Slot): Stream {
    Stream(s.fd, s.clientFin, s.targetFin)
  }

  /** place says where each stream is; exactly the active slots are those places. */
  ghost predicate Holds(slots: seq<Slot>, t: Table, place: map<u32, nat>) {
    && place.Keys == t.Keys
    && (forall id | id in t :: place[id] < |slots| && slots[place[id]].active && slots[place[id]].id == id
                               && StreamIn(slots[place[id]]) == t[id])
    && (forall i | 0 <= i < |slots| && slots[i].active :: slots[i].id in t && place[slots[i].id] == i)
  }

  lemma {:induction false} Activated(slots: seq<Slot>, t: Table, place: map<u32, nat>, i: nat, id: u32, fd: int)
    requires Holds(slots, t, place) && i < |slots| && !slots[i].active && id !in t
    ensures Holds(slots[i := Slot(true, id, fd, false, false)], t[id := Stream(fd, false, false)], place[id := i])
  {
  }

  lemma {:induction false} Changed(slots: seq<Slot>, t: Table, place: map<u32, nat>, i: nat, s: Slot)
    requires Holds(slots, t, place) && i < |slots| && slots[i].active && s.active && s.id == slots[i].id
    ensures Holds(slots[i := s], t[s.id := StreamIn(s)], place)
  {
  }

  lemma {:induction false} Freed(slots: seq<Slot>, t: Table, place: map<u32, nat>, i: nat, s: Slot)
    requires Holds(slots, t, place) && i < |slots| && slots[i].active && !s.active
    ensures Holds(slots[i := s], t - {slots[i].id}, place - {slots[i].id})
  {
  }

  // -------------------------------------------------------------------------
  // Capacity
  // -------------------------------------------------------------------------

  function Ids(slots: seq<Slot>): set<u32> {
    if slots == [] then {}
    else
      var last := slots[|slots| - 1];
      Ids(slots[..|slots| - 1]) + if last.active then {last.id} else {}
  }

  lemma {:induction false} IdsMembers(slots: seq<Slot>, id: u32)
    ensures id in Ids(slots) <==> exists i :: 0 <= i < |slots| && slots[i].active && slots[i].id == id
  {
    if slots != [] {
      var n := |slots| - 1;
      IdsMembers(slots[..n], id);
      assert forall i | 0 <= i < n :: slots[..n][i] == slots[i];
    }
  }

  lemma {:induction false} IdsCount(slots: seq<Slot>)
    requires forall i, j | 0 <= i < j < |slots| && slots[i].active && slots[j].active :: slots[i].id != slots[j].id
    ensures |Ids(slots)| <= |slots|
    ensures |Ids(slots)| == |slots| <==> forall i | 0 <= i < |slots| :: slots[i].active
  {
    if slots != [] {
      var n := |slots| - 1;
      assert forall i | 0 <= i < n :: slots[..n][i] == slots[i];
      IdsCount(slots[..n]);
      IdsMembers(slots[..n], slots[n].id);
    }
  }

  /** The map is as large as the slot array exactly when no slot is free. */
  lemma {:induction false} FullExactly(slots: seq<Slot>, t: Table, place: map<u32, nat>)
    requires Holds(slots, t, place)
    ensures |t| <= |slots|
    ensures |t| == |slots| <==> forall i | 0 <= i < |slots| :: slots[i].active
  {
    forall id
      ensures id in Ids(slots) <==> id in t
    {
      IdsMembers(slots, id);
    }
    assert Ids(slots) == t.Keys;
    IdsCount(slots);
  }

  // -------------------------------------------------------------------------
  // Descriptors
  // -------------------------------------------------------------------------

  ghost function Fds(t: Table): set<int> {
    set id | id in t :: t[id].fd
  }

  lemma {:induction false} FdsAdded(t: Table, id: u32, s: Stream)
    requires id !in t
    ensures Fds(t[id := s]) == Fds(t) + {s.fd}
  {
    var u := t[id := s];
    assert u[id].fd in Fds(u);
    assert forall j | j in t :: u[j].fd in Fds(u);
  }

  lemma {:induction false} FdsChanged(t: Table, id: u32, s: Stream)
    requires id in t && s.fd == t[id].fd
    ensures Fds(t[id := s]) == Fds(t)
  {
    var u := t[id := s];
    assert forall j | j in t :: u[j].fd == t[j].fd && j in u;
  }

  lemma {:induction false} FdsRemoved(link: Link, t: Table, id: u32)
    requires TableOk(link, t) && id in t
    ensures Fds(t - {id}) == Fds(t) - {t[id].fd}
  {
    var u := t - {id};
    assert forall j | j in u :: u[j].fd == t[j].fd && j in t;
    assert forall j | j in t && j != id :: j in u;
  }

  /** The descriptors that are watched: those of the streams whose target has not finished. */
  ghost function Unfinished(slots: seq<Slot>): set<int> {
    set i | 0 <= i < |slots| && slots[i].active && !slots[i].targetFin :: slots[i].fd
  }

  /** With distinct descriptors, a watched one never belongs to a stream whose target has finished. */
  lemma {:induction false} WatchedIsUnfinished(link: Link, slots: seq<Slot>, t: Table, place: map<u32, nat>, i: nat)
    requires Holds(slots, t, place) && TableOk(link, t)
    requires i < |slots| && slots[i].active && slots[i].fd in Unfinished(slots)
    ensures !slots[i].targetFin
  {
    var j :| 0 <= j < |slots| && slots[j].active && !slots[j].targetFin && slots[j].fd == slots[i].fd;
    assert t[slots[j].id].fd == t[slots[i].id].fd;
    assert place[slots[j].id] == j && place[slots[i].id] == i;
  }

  /** The descriptor of a stream whose target has not finished. */
  ghost predicate Awaited(t: Table, fd: int) {
    exists id :: id in t && !t[id].targetFin && t[id].fd == fd
  }

  /** Watched are exactly the descriptors of the streams whose target has not finished. */
  lemma {:induction false} WatchedExactly(slots: seq<Slot>, t: Table, place: map<u32, nat>, fd: int)
    requires Holds(slots, t, place)
    ensures fd in Unfinished(slots) <==> Awaited(t, fd)
  {
    if id :| id in t && !t[id].targetFin && t[id].fd == fd {
      assert StreamIn(slots[place[id]]) == t[id];
    }
    if fd in Unfinished(slots) {
      var j :| 0 <= j < |slots| && slots[j].active && !slots[j].targetFin && slots[j].fd == fd;
      assert place[slots[j].id] == j && StreamIn(slots[j]) == t[slots[j].id];
    }
  }

  lemma {:induction false} UnfinishedAreOpen(slots: seq<Slot>, t: Table, place: map<u32, nat>)
    requires Holds(slots, t, place)
    ensures Unfinished(slots) <= Fds(t)
  {
    forall fd | fd in Unfinished(slots)
      ensures fd in Fds(t)
    {
      var j :| 0 <= j < |slots| && slots[j].active && !slots[j].targetFin && slots[j].fd == fd;
      assert t[slots[j].id].fd == fd;
    }
  }
}
