/** Allocation of slots and new connections (src/server/iocp_connmgr.c:76-93, 482-519). */
module ConnStart {
  import opened Options
  import opened ConnUid
  import opened ConnLog
  import opened ConnState
  import opened ConnSpec
  import opened ConnTable
  import opened ConnIo
  import opened ConnProtocol

  lemma NextSlotUnused(v: Server)
    requires v.Table() && Room(v.Current())
    ensures 0 <= NextSlot(v.Current()) < MAX_CONNECTIONS && !v.ctl[NextSlot(v.Current())].inuse && IsUid(v.ctl[NextSlot(v.Current())].uid)
    ensures v.free != [] <==> v.freelist != NO_SLOT
    ensures v.free != [] ==> v.free[0] == NextSlot(v.Current()) && Lo(v.ctl[NextSlot(v.Current())].uid) == if |v.free| > 1 then v.free[1] else NO_SLOT
    ensures v.free == [] ==> NextSlot(v.Current()) == v.nextUnused
  {
    if v.free != [] {
      assert v.Link(0);
    }
    assert v.SlotOk(NextSlot(v.Current()));
  }

  /** Without room every slot is in use. */
  lemma NoRoomAllInUse(v: Server, s: int)
    requires v.Table() && 0 <= s < MAX_CONNECTIONS && !Room(v.Current())
    ensures v.ctl[s].inuse
  {
    assert v.free != [] ==> v.Link(0);
    assert v.Placed(s);
  }

  /** internal_alloc */
  method Alloc(v: Server) returns (slot: Option<int>)
    requires v.Sized() && (Room(v.Current()) ==> 0 <= NextSlot(v.Current()) < MAX_CONNECTIONS && IsUid(v.ctl[NextSlot(v.Current())].uid))
    requires v.freelist != NO_SLOT <==> v.free != []
    modifies v`freelist, v`nextUnused, v`free, v`gens, v.ctl
    ensures slot == if old(Room(v.Current())) then Some(old(NextSlot(v.Current()))) else None
    ensures slot.None? ==> unchanged(v) && unchanged(v.ctl)
    ensures slot.Some? ==> v.Sized() && v.gens == old(v.gens)[slot.value := old(v.gens)[slot.value] + 1]
    ensures slot.Some? ==> forall x {:trigger v.ctl[x]} :: 0 <= x < MAX_CONNECTIONS && x != slot.value ==> v.ctl[x] == old(v.ctl[x])
    ensures slot.Some? ==> v.ctl[slot.value] == old(v.ctl[slot.value]).(uid := NextUid(old(v.ctl[slot.value].uid), slot.value), inuse := true, closing := false, firstMsg := false, output := false)
    ensures slot.Some? && old(v.freelist) != NO_SLOT ==> v.freelist == Lo(old(v.ctl[slot.value].uid)) && v.free == old(v.free)[1..] && v.nextUnused == old(v.nextUnused)
    ensures slot.Some? && old(v.freelist) == NO_SLOT ==> v.freelist == NO_SLOT && v.free == old(v.free) && v.nextUnused == old(v.nextUnused) + 1
  {
    var s;
    if v.freelist != NO_SLOT {
      s := v.freelist;
      v.freelist := Lo(v.ctl[s].uid);
      v.free := v.free[1..];
    } else {
      if v.nextUnused >= MAX_CONNECTIONS {
        return None;
      }
      s := v.nextUnused;
      v.nextUnused := v.nextUnused + 1;
    }
    v.ctl[s] := v.ctl[s].(uid := NextUid(v.ctl[s].uid, s), inuse := true, closing := false, firstMsg := false, output := false);
    v.gens := v.gens[s := v.gens[s] + 1];
    return Some(s);
  }

  /** A new connection stands in slot `s`, without a protocol. */
  twostate predicate Opened(v: Server, s: int, sendsFirst: bool)
    reads v, v.ctl
  {
    && v.Sized() && 0 <= s < MAX_CONNECTIONS && |old(v.gens)| == MAX_CONNECTIONS && IsUid(old(v.ctl[s]).uid)
    && v.gens == old(v.gens)[s := old(v.gens)[s] + 1]
    && (forall x {:trigger v.ctl[x]} :: 0 <= x < MAX_CONNECTIONS && x != s ==> v.ctl[x] == old(v.ctl[x]))
    && v.ctl[s] == Begun(old(v.ctl[s]), s, sendsFirst)
    && (if old(v.free) != [] then v.freelist == Lo(old(v.ctl[s]).uid) && v.free == old(v.free)[1..] && v.nextUnused == old(v.nextUnused)
        else v.freelist == NO_SLOT && v.free == [] && v.nextUnused == old(v.nextUnused) + 1)
    && v.rd == old(v.rd) && v.wr == old(v.wr) && v.log == old(v.log) && v.pool == old(v.pool) && v.owner == old(v.owner)
    && v.nextBuf == old(v.nextBuf) && v.logins == old(v.logins) && v.nextLogin == old(v.nextLogin) && v.dbQueue == old(v.dbQueue)
    && v.dbTask == old(v.dbTask) && v.serverQueue == old(v.serverQueue) && v.serverTask == old(v.serverTask) && v.home == old(v.home) && v.place == old(v.place)
  }

  twostate lemma OpenedList(v: Server, new s: int, new sendsFirst: bool)
    requires old(v.Table() && Room(v.Current()) && NextSlot(v.Current()) == s) && Opened(v, s, sendsFirst)
    ensures v.Listed()
  {
    if old(v.free) != [] {
      assert old(v.Link(0));
    }
    assert old(v.SlotOk(s));
    forall i {:trigger v.Link(i)} | 0 <= i < |v.free| ensures v.Link(i) {
      assert v.free[i] == old(v.free)[i + 1];
      assert old(v.Link(i + 1));
    }
    forall x {:trigger v.Placed(x)} | 0 <= x < MAX_CONNECTIONS ensures v.Placed(x) {
      assert old(v.Placed(x));
    }
  }

  twostate lemma OpenedSlots(v: Server, new s: int, new sendsFirst: bool)
    requires 0 <= s < MAX_CONNECTIONS && old(v.Table() && v.SettledBut(-1) && Room(v.Current()) && NextSlot(v.Current()) == s && !v.ctl[s].inuse) && Opened(v, s, sendsFirst)
    ensures v.Table() && v.SettledBut(-1)
  {
    if old(v.free) != [] {
      assert old(v.Link(0));
    }
    forall x | 0 <= x < MAX_CONNECTIONS ensures v.SlotOk(x) && v.Settled(x) {
      assert old(v.SlotOk(x)); assert old(v.Settled(x));
    }
    OpenedList(v, s, sendsFirst);
  }

  twostate lemma OpenedLogged(v: Server, new s: int, new sendsFirst: bool)
    requires 0 <= s < MAX_CONNECTIONS && old(v.Valid() && !v.ctl[s].inuse) && Opened(v, s, sendsFirst)
    ensures v.Logged() && v.Pooled()
  {
    var id := ConnId(s, v.gens[s]);
    assert id !in Closed(v.log);
    assert !old(v.Live(id));
    assert forall c {:trigger v.Live(c)} :: c != id ==> v.Live(c) == old(v.Live(c));
    forall b {:trigger v.Owned(b)} | b in v.owner ensures v.Owned(b) {
      assert old(v.Owned(b));
    }
  }

  twostate lemma OpenedLogins(v: Server, new s: int, new sendsFirst: bool)
    requires 0 <= s < MAX_CONNECTIONS && old(v.Valid() && !v.ctl[s].inuse) && Opened(v, s, sendsFirst)
    requires forall l {:trigger l in v.logins} :: l in v.logins ==> v.logins[l].connection != v.ctl[s].uid
    ensures v.Logins()
  {
    assert old(v.SlotOk(s));
    UidDetermined(v.ctl[s].uid, s, v.gens[s]);
    forall l {:trigger v.LoginOk(l)} | l in v.logins ensures v.LoginOk(l) {
      assert old(v.LoginOk(l));
      var c := v.home[l];
      if c.slot == s {
        UidRepeats(s, v.gens[s], c.gen);
        assert v.gens[s] == c.gen + 0x10000 ==> SameTurn(v.gens[s], c.gen);
      }
    }
  }

  // ----- an identifier that is still carried -----

  lemma NextRepeats(s: int, g: nat, h: nat)
    requires 0 <= s <= 0xFFFF && h <= g < h + 0x10000
    ensures UidOf(s, g + 1) == UidOf(s, h) <==> h + 0x10000 == g + 1
  {
    UidRepeats(s, g + 1, h);
  }

  lemma NextOf(uid: int, s: int, g: nat)
    requires IsUid(uid) && 0 <= s <= 0xFFFF && Hi(uid) == g % 0x10000
    ensures NextUid(uid, s) == UidOf(s, g + 1)
  {
    UidDetermined(NextUid(uid, s), s, g + 1);
  }

  lemma NextIsTheNext(v: Server, s: int)
    requires v.Table() && 0 <= s < MAX_CONNECTIONS
    ensures IsUid(v.ctl[s].uid) && NextUid(v.ctl[s].uid, s) == UidOf(s, v.gens[s] + 1)
  {
    assert v.SlotOk(s);
    NextOf(v.ctl[s].uid, s, v.gens[s]);
  }

  /** The identifier of the next connection is claimed exactly when a record is outstanding for the connection 65536
      allocations before it in the same slot. */
  lemma UnclaimedIff(v: Server)
    requires v.Valid() && Room(v.Current())
    ensures 0 <= NextSlot(v.Current()) < MAX_CONNECTIONS
    ensures Unclaimed(v.Current()) <==>
      forall l {:trigger v.home[l]} :: l in v.home ==> !(v.home[l].slot == NextSlot(v.Current()) && v.home[l].gen + 0x10000 == v.gens[NextSlot(v.Current())] + 1)
  {
    NextSlotUnused(v);
    var s := NextSlot(v.Current());
    NextIsTheNext(v, s);
    hide NextUid, UidOf, IsUid, Server.SlotOk, Server.Listed;
    var uid := UidOf(s, v.gens[s] + 1);
    forall l | l in v.logins
      ensures v.logins[l].connection == uid <==> v.home[l].slot == s && v.home[l].gen + 0x10000 == v.gens[s] + 1
    {
      assert v.LoginOk(l);
      var c := v.home[l];
      if c.slot == s {
        NextRepeats(s, v.gens[s], c.gen);
      } else {
        UidsOfSlotsDiffer(s, v.gens[s] + 1, c.slot, c.gen);
      }
    }
  }

  /** Were the slot opened nevertheless, the record of a connection that is gone would find the new one in its place. */
  twostate lemma ForeignTaken(v: Server, new sendsFirst: bool) returns (l: nat)
    requires old(v.Valid() && Room(v.Current()) && !Unclaimed(v.Current())) && Opened(v, old(NextSlot(v.Current())), sendsFirst)
    ensures l in v.logins && l in v.home && v.ctl[old(NextSlot(v.Current()))].uid == v.logins[l].connection
    ensures v.Live(ConnId(old(NextSlot(v.Current())), v.gens[old(NextSlot(v.Current()))]))
    ensures v.home[l] != ConnId(old(NextSlot(v.Current())), v.gens[old(NextSlot(v.Current()))]) && !v.Live(v.home[l])
  {
    var s := old(NextSlot(v.Current()));
    assert old(v.free) != [] ==> old(v.Link(0));
    assert old(v.SlotOk(s));
    l :| l in old(v.logins) && old(v.logins)[l].connection == v.ctl[s].uid;
    assert old(v.LoginOk(l));
  }

  method OpenRaw(v: Server, sendsFirst: bool) returns (s: int)
    requires v.Sized() && Room(v.Current()) && 0 <= NextSlot(v.Current()) < MAX_CONNECTIONS && IsUid(v.ctl[NextSlot(v.Current())].uid)
    requires v.freelist != NO_SLOT <==> v.free != []
    modifies v`freelist, v`nextUnused, v`free, v`gens, v.ctl
    ensures s == old(NextSlot(v.Current())) && Opened(v, old(NextSlot(v.Current())), sendsFirst)
  {
    var slot := Alloc(v);
    s := slot.value;
    v.ctl[s] := v.ctl[s].(rdwr := 1, pending := 0, proto := None, udata := Service(sendsFirst));
  }

  /** The slot is set up; no record in flight may already carry the identifier it gets. */
  method Open(v: Server, sendsFirst: bool) returns (s: int)
    requires v.Valid() && Room(v.Current()) && Unclaimed(v.Current())
    modifies v`freelist, v`nextUnused, v`free, v`gens, v.ctl
    ensures v.Valid() && s == old(NextSlot(v.Current())) && Opened(v, old(NextSlot(v.Current())), sendsFirst)
  {
    NextSlotUnused(v);
    s := OpenRaw(v, sendsFirst);
    OpenedSlots(v, s, sendsFirst);
    OpenedLogged(v, s, sendsFirst);
    OpenedLogins(v, s, sendsFirst);
  }

  /** internal_dispatch_on_connect: a service that sends first gets its protocol at once. */
  method DispatchConnect(v: Server, s: int, ok: bool)
    requires v.Valid() && 0 <= s < MAX_CONNECTIONS && v.ctl[s].inuse && !v.ctl[s].closing && v.ctl[s].udata.Service? && v.ctl[s].proto.None? && s !in v.rd
    modifies v`log, v`wr, v.ctl
    ensures v.Valid() && OthersKept(v, s) && v.ctl[s].inuse && !v.ctl[s].closing && v.ctl[s].uid == old(v.ctl[s]).uid
    ensures v.ctl[s] == Greeted(old(v.ctl[s]), ok)
    ensures s in v.wr <==> old(v.ctl[s]).udata.sendsFirst && ok
    ensures v.log == old(v.log) + GreetCalls(ConnId(s, v.gens[s]), old(v.ctl[s]).udata.sendsFirst)
  {
    hide Server.Listed, Server.Logged, Server.Pooled, Server.Logins, Server.Queued;
    assert v.SlotOk(s);
    if v.ctl[s].udata.sendsFirst {
      Assign(v, s, Game);
      Note(v, s, OnConnect, v.ctl[s].firstMsg, -1);
      GameConnect(v, s, ok);
    }
  }

  /** The first read is tried once. */
  method FirstRead(v: Server, s: int, ok: bool)
    requires v.Valid() && 0 <= s < MAX_CONNECTIONS && v.ctl[s].inuse && v.ctl[s].proto != Some(Login) && s !in v.rd
    modifies v`rd, v`pool, v`owner, v`log, v`freelist, v`free, v.ctl
    ensures v.Valid() && OthersKept(v, s)
    ensures if ok then s in v.rd && v.rd[s] == ReadOp(v.gens[s], false) && v.log == old(v.log) && v.ctl[s] == old(v.ctl[s]).(pending := old(v.ctl[s]).pending + 1)
            else v.rd == old(v.rd) && Shut(v, s, old(v.ctl[s]), old(v.log))
  {
    assert v.Settled(s);
    StartRead(v, s, false, ok);
    if !ok {
      StartClose(v, s);
    }
  }

  twostate lemma ConnectedBy(v: Server, new s: int, new sendsFirst: bool, new sendOk: bool, new readOk: bool, new d: Conn)
    requires old(v.Valid()) && v.Valid() && 0 <= s < MAX_CONNECTIONS && s == old(NextSlot(v.Current())) && OthersKept(v, s)
    requires !old(v.ctl[s]).inuse && IsUid(old(v.ctl[s]).uid) && v.gens == old(v.gens)[s := old(v.gens)[s] + 1]
    requires v.logins == old(v.logins) && v.nextLogin == old(v.nextLogin)
    requires v.dbQueue == old(v.dbQueue) && v.dbTask == old(v.dbTask) && v.serverQueue == old(v.serverQueue) && v.serverTask == old(v.serverTask)
    requires d == Greeted(Begun(old(v.ctl[s]), s, sendsFirst), sendOk) && (s in v.wr <==> d.output)
    requires var log := old(v.log) + GreetCalls(ConnId(s, v.gens[s]), sendsFirst);
      if readOk then s in v.rd && v.rd[s] == ReadOp(v.gens[s], false) && v.ctl[s] == d.(pending := d.pending + 1) && v.log == log
      else s !in v.rd && Shut(v, s, d, log)
    ensures Connected(old(v.Current()), v.Current(), sendsFirst, sendOk, readOk)
  {
    hide Server.Listed, Server.Logged, Server.Pooled, Server.Logins, Server.Queued;
  }

  /** A connection has been opened, greeted and asked for its first message. */
  method Begin(v: Server, sendsFirst: bool, sendOk: bool, readOk: bool) returns (s: int)
    requires v.Valid() && Room(v.Current()) && Unclaimed(v.Current())
    modifies v`freelist, v`nextUnused, v`free, v`gens, v`log, v`rd, v`wr, v`pool, v`owner, v.ctl
    ensures v.Valid() && s == old(NextSlot(v.Current())) && Connected(old(v.Current()), v.Current(), sendsFirst, sendOk, readOk)
  {
    hide Server.Listed, Server.Logged, Server.Pooled, Server.Logins, Server.Queued, Connected, Shut;
    NextSlotUnused(v);
    s := Open(v, sendsFirst);
    NewIsQuiet(v, s);
    DispatchConnect(v, s, sendOk);
    NewIsQuiet(v, s);
    ghost var d := v.ctl[s];
    FirstRead(v, s, readOk);
    ConnectedBy(v, s, sendsFirst, sendOk, readOk, d);
  }

  /** connmgr_start_connection; None is the null result of internal_alloc, which the source does not test for. */
  method StartConnection(v: Server, sendsFirst: bool, sendOk: bool, readOk: bool) returns (slot: Option<int>)
    requires v.Valid() && (Room(v.Current()) ==> Unclaimed(v.Current()))
    modifies v`freelist, v`nextUnused, v`free, v`gens, v`log, v`rd, v`wr, v`pool, v`owner, v.ctl
    ensures v.Valid()
    ensures slot == if old(Room(v.Current())) then Some(old(NextSlot(v.Current()))) else None
    ensures slot.None? ==> unchanged(v) && unchanged(v.ctl)
    ensures slot.Some? ==> Connected(old(v.Current()), v.Current(), sendsFirst, sendOk, readOk)
  {
    if !Room(v.Current()) {
      return None;
    }
    var s := Begin(v, sendsFirst, sendOk, readOk);
    slot := Some(s);
  }

  lemma NewIsQuiet(v: Server, s: int)
    requires v.Table() && 0 <= s < MAX_CONNECTIONS && v.ctl[s].inuse
    ensures v.ctl[s].pending == v.InFlight(s) && v.ctl[s].uid == UidOf(s, v.gens[s])
  {
    assert v.SlotOk(s);
    UidDetermined(v.ctl[s].uid, s, v.gens[s]);
  }
}
