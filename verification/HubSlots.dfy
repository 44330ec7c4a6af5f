/** How eight slots hold the clients of the hub. */
module HubSlots {
  import opened Frame
  import opened Relay

  datatype Client = Client(active: bool, fd: int)

  ghost function FdsOf(slots: seq<Client>): set<int> {
    set i | 0 <= i < |slots| && slots[i].active :: slots[i].fd
  }

  ghost predicate Distinct(slots: seq<Client>) {
    forall i, j | 0 <= i < j < |slots| && slots[i].active && slots[j].active :: slots[i].fd != slots[j].fd
  }

  /** The clients in slot order, without the one in slot skip. */
  function OrderBut(slots: seq<Client>, skip: int): seq<int> {
    if slots == [] then []
    else
      var n := |slots| - 1;
      OrderBut(slots[..n], skip) + if slots[n].active && n != skip then [slots[n].fd] else []
  }

  lemma {:induction false} OrderNext(slots: seq<Client>, skip: int, i: nat)
    requires i < |slots|
    ensures OrderBut(slots[..i + 1], skip)
      == OrderBut(slots[..i], skip) + if slots[i].active && i != skip then [slots[i].fd] else []
  {
    assert slots[..i + 1][..i] == slots[..i];
  }

  lemma {:induction false} OrderMembers(slots: seq<Client>, skip: int, fd: int)
    ensures fd in OrderBut(slots, skip) <==> exists i :: 0 <= i < |slots| && i != skip && slots[i].active && slots[i].fd == fd
  {
    if slots != [] {
      var n := |slots| - 1;
      OrderMembers(slots[..n], skip, fd);
      OrderNext(slots, skip, n);
      hide OrderBut;
      var init := slots[..n];
      assert slots[..n + 1] == slots;
      assert forall i | 0 <= i < n :: init[i] == slots[i];
      if i :| 0 <= i < n && i != skip && slots[i].active && slots[i].fd == fd {
        assert init[i].active && init[i].fd == fd;
      }
    }
  }

  lemma {:induction false} OrderDistinct(slots: seq<Client>, skip: int)
    requires Distinct(slots)
    ensures var order := OrderBut(slots, skip);
      forall i, j | 0 <= i < j < |order| :: order[i] != order[j]
  {
    if slots != [] {
      var n := |slots| - 1;
      assert forall i | 0 <= i < n :: slots[..n][i] == slots[i];
      OrderDistinct(slots[..n], skip);
      OrderMembers(slots[..n], skip, slots[n].fd);
    }
  }

  lemma {:induction false} OrderLists(slots: seq<Client>, skip: int)
    requires Distinct(slots) && -1 <= skip < |slots| && (skip >= 0 ==> slots[skip].active)
    ensures Lists(OrderBut(slots, skip), FdsOf(slots) - if skip >= 0 then {slots[skip].fd} else {})
  {
    OrderDistinct(slots, skip);
    var fds := FdsOf(slots) - if skip >= 0 then {slots[skip].fd} else {};
    forall fd
      ensures fd in fds <==> fd in OrderBut(slots, skip)
    {
      if fd in fds {
        FdIsListed(slots, skip, fd);
      }
      if fd in OrderBut(slots, skip) {
        ListedIsFd(slots, skip, fd);
      }
    }
    hide OrderBut, FdsOf, Distinct;
  }

  lemma {:induction false} FdIsListed(slots: seq<Client>, skip: int, fd: int)
    requires -1 <= skip < |slots| && fd in FdsOf(slots) && (skip >= 0 ==> fd != slots[skip].fd)
    ensures fd in OrderBut(slots, skip)
  {
    var i :| 0 <= i < |slots| && slots[i].active && slots[i].fd == fd;
    assert i != skip;
    OrderMembers(slots, skip, fd);
  }

  lemma {:induction false} ListedIsFd(slots: seq<Client>, skip: int, fd: int)
    requires Distinct(slots) && -1 <= skip < |slots| && (skip >= 0 ==> slots[skip].active) && fd in OrderBut(slots, skip)
    ensures fd in FdsOf(slots) && (skip >= 0 ==> fd != slots[skip].fd)
  {
    OrderMembers(slots, skip, fd);
    var i :| 0 <= i < |slots| && i != skip && slots[i].active && slots[i].fd == fd;
    assert slots[i].fd in FdsOf(slots);
    if skip >= 0 {
      var low, high := if i < skip then i else skip, if i < skip then skip else i;
      assert slots[low].fd != slots[high].fd;
    }
  }

  /** The slots after some clients have been dropped. */
  function Without(slots: seq<Client>, dropped: set<int>): (r: seq<Client>)
    ensures |r| == |slots|
  {
    seq(|slots|, i requires 0 <= i < |slots| => slots[i].(active := slots[i].active && slots[i].fd !in dropped))
  }

  lemma {:induction false} WithoutFds(slots: seq<Client>, dropped: set<int>)
    ensures FdsOf(Without(slots, dropped)) == FdsOf(slots) - dropped
    ensures Distinct(slots) ==> Distinct(Without(slots, dropped))
  {
    var r := Without(slots, dropped);
    forall fd
      ensures fd in FdsOf(r) <==> fd in FdsOf(slots) - dropped
    {
      if fd in FdsOf(r) {
        var i :| 0 <= i < |r| && r[i].active && r[i].fd == fd;
        assert slots[i].fd == fd;
      }
      if fd in FdsOf(slots) - dropped {
        var i :| 0 <= i < |slots| && slots[i].active && slots[i].fd == fd;
        assert r[i].fd == fd;
      }
    }
  }

  /** Dropping a client that comes later changes nothing before it. */
  lemma {:induction false} LaterDrop(slots: seq<Client>, skip: int, i: nat, dropped: set<int>, m: Msg)
    requires Distinct(slots) && i < |slots| && slots[i].active
    ensures Without(slots[..i], dropped + {slots[i].fd}) == Without(slots[..i], dropped)
    ensures var order := OrderBut(slots[..i], skip);
      Casts(order, dropped + {slots[i].fd}, m) == Casts(order, dropped, m)
  {
    OrderMembers(slots[..i], skip, slots[i].fd);
    CastsSame(OrderBut(slots[..i], skip), dropped, dropped + {slots[i].fd}, m);
  }

  lemma {:induction false} CastsSame(order: seq<int>, dropped: set<int>, dropped': set<int>, m: Msg)
    requires forall fd | fd in order :: fd in dropped <==> fd in dropped'
    ensures Casts(order, dropped, m) == Casts(order, dropped', m)
  {
    if order != [] {
      CastsSame(order[..|order| - 1], dropped, dropped', m);
    }
  }

  /** A slot that is active and not served yet belongs to no client dropped so far. */
  lemma {:induction false} NotDroppedYet(slots: seq<Client>, skip: int, i: nat, dropped: set<int>)
    requires Distinct(slots) && i < |slots| && slots[i].active
    requires forall fd | fd in dropped :: fd in OrderBut(slots[..i], skip)
    ensures slots[i].fd !in dropped
  {
    OrderMembers(slots[..i], skip, slots[i].fd);
  }

  /** After slot i: the slots so far, with one more client dropped or not. */
  lemma {:induction false} OneMore(slots: seq<Client>, skip: int, i: nat, dropped: set<int>, m: Msg, drop: bool)
    requires Distinct(slots) && i < |slots| && forall fd | fd in dropped :: fd in OrderBut(slots[..i], skip)
    requires drop ==> slots[i].active && i != skip
    ensures var d := if drop then dropped + {slots[i].fd} else dropped;
      && Without(slots[..i + 1], d) == Without(slots[..i], dropped) + [if drop then slots[i].(active := false) else slots[i]]
      && Casts(OrderBut(slots[..i + 1], skip), d, m) == Casts(OrderBut(slots[..i], skip), dropped, m)
         + (if !slots[i].active || i == skip then [] else Cast(slots[i].fd, d, m))
      && forall fd | fd in d :: fd in OrderBut(slots[..i + 1], skip)
  {
    var d := if drop then dropped + {slots[i].fd} else dropped;
    var order := OrderBut(slots[..i], skip);
    OrderNext(slots, skip, i);
    if slots[i].active {
      NotDroppedYet(slots, skip, i, dropped);
      LaterDrop(slots, skip, i, dropped, m);
    }
    OneMoreSlot(slots, i, dropped, drop);
    hide OrderBut, Casts, Without, Distinct, Cast;
    if slots[i].active && i != skip {
      CastsSnoc(order, slots[i].fd, d, m);
    } else {
      assert order + [] == order && Casts(order, dropped, m) + [] == Casts(order, dropped, m);
    }
  }

  lemma {:induction false} OneMoreSlot(slots: seq<Client>, i: nat, dropped: set<int>, drop: bool)
    requires i < |slots| && (slots[i].active ==> slots[i].fd !in dropped) && (drop ==> slots[i].active)
    requires drop ==> Without(slots[..i], dropped + {slots[i].fd}) == Without(slots[..i], dropped)
    ensures var d := if drop then dropped + {slots[i].fd} else dropped;
      Without(slots[..i + 1], d) == Without(slots[..i], dropped) + [if drop then slots[i].(active := false) else slots[i]]
  {
    var d := if drop then dropped + {slots[i].fd} else dropped;
    assert slots[..i + 1] == slots[..i] + [slots[i]];
    assert Without(slots[..i + 1], d) == Without(slots[..i], d) + Without([slots[i]], d);
  }

  lemma {:induction false} CastsSnoc(order: seq<int>, fd: int, dropped: set<int>, m: Msg)
    ensures Casts(order + [fd], dropped, m) == Casts(order, dropped, m) + Cast(fd, dropped, m)
  {
    assert (order + [fd])[..|order|] == order;
  }

  lemma {:induction false} FdsPut(slots: seq<Client>, i: nat, fd: int)
    requires Distinct(slots) && i < |slots| && !slots[i].active && fd !in FdsOf(slots)
    ensures var r := slots[i := Client(true, fd)];
      Distinct(r) && FdsOf(r) == FdsOf(slots) + {fd}
  {
    var r := slots[i := Client(true, fd)];
    assert r[i].fd in FdsOf(r);
    assert forall j | 0 <= j < |slots| && slots[j].active :: r[j] == slots[j] && slots[j].fd in FdsOf(slots) && r[j].fd in FdsOf(r);
  }

  lemma {:induction false} FdsFreed(slots: seq<Client>, i: nat)
    requires Distinct(slots) && i < |slots| && slots[i].active
    ensures var r := slots[i := slots[i].(active := false)];
      Distinct(r) && FdsOf(r) == FdsOf(slots) - {slots[i].fd}
  {
    var r := slots[i := slots[i].(active := false)];
    assert forall j | 0 <= j < |r| && r[j].active :: r[j] == slots[j] && r[j].fd in FdsOf(r);
    forall fd | fd in FdsOf(slots) - {slots[i].fd}
      ensures fd in FdsOf(r)
    {
      var j :| 0 <= j < |slots| && slots[j].active && slots[j].fd == fd;
      assert r[j].fd in FdsOf(r);
    }
  }

  /** All slots are taken exactly if there are as many clients as slots. */
  lemma {:induction false} AllTaken(slots: seq<Client>)
    requires Distinct(slots)
    ensures |FdsOf(slots)| <= |slots|
    ensures |FdsOf(slots)| == |slots| <==> forall i | 0 <= i < |slots| :: slots[i].active
  {
    if slots == [] {
      assert FdsOf(slots) == {};
    } else {
      var n := |slots| - 1;
      var init := slots[..n];
      assert forall i | 0 <= i < n :: init[i] == slots[i];
      AllTaken(init);
      assert FdsOf(slots) == FdsOf(init) + if slots[n].active then {slots[n].fd} else {};
      assert slots[n].active ==> slots[n].fd !in FdsOf(init);
    }
  }
}
