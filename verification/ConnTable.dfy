/** Slot allocation and the closing of connections. */
module ConnTable {
  import opened Options
  import opened ConnUid
  import opened ConnLog
  import opened ConnState

  /** No other connection and none of its operations is touched. */
  twostate predicate OthersKept(v: Server, s: int)
    reads v`rd, v`wr, v.ctl
  {
    && v.ctl.Length == MAX_CONNECTIONS && (forall x {:trigger v.ctl[x]} :: 0 <= x < MAX_CONNECTIONS && x != s ==> v.ctl[x] == old(v.ctl[x]))
    && v.rd - {s} == old(v.rd) - {s} && v.wr - {s} == old(v.wr) - {s}
  }

  /** The connection whose record was `c`, after the callbacks in `log`, has been told to close: it is gone, its
      protocol notified, when no operation was pending; otherwise it is closing. */
  ghost predicate Shut(v: Server, s: int, c: Conn, log: seq<Callback>)
    reads v`gens, v`nextUnused, v`freelist, v`log, v.ctl
  {
    v.Sized() && 0 <= s < MAX_CONNECTIONS &&
    if c.pending == 0 then
      && !v.ctl[s].inuse && v.ctl[s].proto.None? && v.freelist == s
      && v.log == log + (if c.proto.Some? then [Callback(ConnId(s, v.gens[s]), OnClose)] else [])
    else
      v.ctl[s] == c.(closing := true) && v.log == log
  }

  /** The free list stays in order while no slot is allocated or freed. */
  twostate lemma ListKept(v: Server)
    requires old(v.Sized() && v.Listed()) && v.Sized()
    requires v.freelist == old(v.freelist) && v.free == old(v.free) && v.nextUnused == old(v.nextUnused)
    requires forall x {:trigger v.ctl[x]} :: 0 <= x < MAX_CONNECTIONS ==> v.ctl[x].inuse == old(v.ctl[x].inuse) && v.ctl[x].uid == old(v.ctl[x].uid)
    ensures v.Listed()
  {
    forall i {:trigger v.Link(i)} | 0 <= i < |v.free| ensures v.Link(i) {
      assert old(v.Link(i));
    }
    forall x {:trigger v.Placed(x)} | 0 <= x < MAX_CONNECTIONS ensures v.Placed(x) {
      assert old(v.Placed(x));
    }
  }

  /** No write of the buffer is in flight. */
  ghost predicate Idle(v: Server, b: nat)
    reads v`wr
  {
    forall x {:trigger x in v.wr} :: x in v.wr ==> v.wr[x].data != Buf(b)
  }

  /** A buffer being written belongs to the connection that writes it. */
  lemma WrittenByItsOwner(v: Server, x: int, b: nat)
    requires v.Table() && x in v.wr && v.wr[x].data == Buf(b)
    ensures b in v.owner && v.owner[b] == ByConn(x) && v.ctl[x].udata == Buf(b)
  {
    assert v.SlotOk(x);
  }

  lemma IdleUnlessWriting(v: Server, b: nat)
    requires v.Table() && b in v.owner
    requires v.owner[b].ByConn? ==> v.owner[b].slot !in v.wr
    ensures Idle(v, b)
  {
    forall x | x in v.wr ensures v.wr[x].data != Buf(b) {
      if v.wr[x].data == Buf(b) {
        WrittenByItsOwner(v, x, b);
      }
    }
  }

  /** outbuf_release: back to the pool, or freed when the pool is full. Every call has to show that the buffer is out
      and that no write of it is in flight. */
  method Release(v: Server, b: nat)
    requires b in v.owner && !v.owner[b].InPool? && Idle(v, b)
    requires |v.pool| <= MAX_IDLE_OUTBUFS
    modifies v`pool, v`owner
    ensures Released(v, b)
  {
    if |v.pool| < MAX_IDLE_OUTBUFS {
      v.pool := [b] + v.pool;
      v.owner := v.owner[b := InPool];
    } else {
      v.owner := v.owner - {b};
    }
  }

  twostate predicate Released(v: Server, b: nat)
    reads v`pool, v`owner
  {
    if |old(v.pool)| < MAX_IDLE_OUTBUFS then
      v.pool == [b] + old(v.pool) && v.owner == old(v.owner)[b := InPool]
    else
      v.pool == old(v.pool) && v.owner == old(v.owner) - {b}
  }

  /** The buffer that has to be released when the connection in `c` closes. */
  ghost function Held(c: Conn): Option<nat>
  {
    if c.proto == Some(Login) && c.udata.Buf? then Some(c.udata.b) else None
  }

  /** What closing slot `s` does. */
  twostate predicate SlotClosed(v: Server, s: int)
    reads v, v.ctl
  {
    && v.Sized() && 0 <= s < MAX_CONNECTIONS && IsUid(old(v.ctl[s].uid)) && 0 <= old(v.freelist) <= NO_SLOT
    && (forall x {:trigger v.ctl[x]} :: 0 <= x < MAX_CONNECTIONS && x != s ==> v.ctl[x] == old(v.ctl[x]))
    && v.ctl[s] == old(v.ctl[s]).(uid := FreedUid(old(v.ctl[s].uid), old(v.freelist)), inuse := false, proto := None,
                                  udata := if Held(old(v.ctl[s])).Some? then Null else old(v.ctl[s].udata))
    && v.freelist == s && v.free == [s] + old(v.free)
    && v.log == old(v.log) + (if old(v.ctl[s].proto.Some?) then [Callback(ConnId(s, v.gens[s]), OnClose)] else [])
    && (if Held(old(v.ctl[s])).Some? then Released(v, Held(old(v.ctl[s])).value) else v.pool == old(v.pool) && v.owner == old(v.owner))
    && v.nextUnused == old(v.nextUnused) && v.gens == old(v.gens) && v.rd == old(v.rd) && v.wr == old(v.wr)
    && v.nextBuf == old(v.nextBuf) && v.logins == old(v.logins) && v.nextLogin == old(v.nextLogin) && v.dbQueue == old(v.dbQueue)
    && v.dbTask == old(v.dbTask) && v.serverQueue == old(v.serverQueue) && v.serverTask == old(v.serverTask) && v.home == old(v.home) && v.place == old(v.place)
  }

  twostate lemma ClosedTable(v: Server, new s: int)
    requires old(v.Inv(s)) && 0 <= s < MAX_CONNECTIONS && old(v.ctl[s].inuse && v.ctl[s].pending == 0)
    requires SlotClosed(v, s)
    ensures v.Table() && v.SettledBut(-1)
  {
    assert old(v.SlotOk(s));
    forall x | 0 <= x < MAX_CONNECTIONS ensures v.SlotOk(x) && v.Settled(x) {
      assert old(v.SlotOk(x));
      if x != s {
        assert old(v.Settled(x));
      }
    }
    ClosedList(v, s);
  }

  twostate lemma ClosedList(v: Server, new s: int)
    requires old(v.Inv(s)) && 0 <= s < MAX_CONNECTIONS && old(v.ctl[s].inuse && v.ctl[s].pending == 0)
    requires SlotClosed(v, s)
    ensures v.Listed()
  {
    assert old(v.SlotOk(s));
    forall i {:trigger v.Link(i)} | 0 <= i < |v.free| ensures v.Link(i) {
      if i > 0 {
        assert v.free[i] == old(v.free)[i - 1];
        assert old(v.Link(i - 1));
      } else if |old(v.free)| > 0 {
        assert old(v.Link(0));
      }
    }
    forall x {:trigger v.Placed(x)} | 0 <= x < MAX_CONNECTIONS ensures v.Placed(x) {
      assert old(v.Placed(x));
    }
    forall i, j | 0 <= i < j < |v.free| ensures v.free[i] != v.free[j] {
      assert v.free[j] == old(v.free)[j - 1];
      assert old(v.Link(j - 1));
    }
  }

  twostate lemma ClosedLogged(v: Server, new s: int)
    requires old(v.Inv(s)) && 0 <= s < MAX_CONNECTIONS && old(v.ctl[s].inuse)
    requires SlotClosed(v, s)
    ensures v.Logged()
  {
    var id := ConnId(s, v.gens[s]);
    assert old(v.Live(id));
    assert id in Assigned(old(v.log)) <==> old(v.ctl[s].proto.Some?);
    if old(v.ctl[s].proto.Some?) {
      Append(old(v.log), Callback(id, OnClose));
    } else {
      assert v.log == old(v.log);
    }
    forall c | c != id ensures v.Live(c) == old(v.Live(c)) {}
  }

  twostate lemma ClosedPooled(v: Server, new s: int)
    requires old(v.Inv(s)) && 0 <= s < MAX_CONNECTIONS && old(v.ctl[s].inuse)
    requires SlotClosed(v, s)
    ensures v.Pooled()
  {
    assert old(v.SlotOk(s));
    forall b {:trigger v.Owned(b)} | b in v.owner ensures v.Owned(b) {
      assert old(v.Owned(b));
    }
  }

  twostate lemma ClosedLogins(v: Server, new s: int)
    requires old(v.Inv(s)) && 0 <= s < MAX_CONNECTIONS && old(v.ctl[s].inuse)
    requires SlotClosed(v, s)
    ensures v.Logins()
  {
    assert old(v.SlotOk(s));
    forall l {:trigger v.LoginOk(l)} | l in v.logins ensures v.LoginOk(l) {
      assert old(v.LoginOk(l));
    }
  }

  /** internal_dispatch_on_close, with the on_close of each protocol. */
  method DispatchOnClose(v: Server, s: int)
    requires v.Sized() && 0 <= s < MAX_CONNECTIONS
    requires Held(v.ctl[s]).Some? ==> Held(v.ctl[s]).value in v.owner && !v.owner[Held(v.ctl[s]).value].InPool? && Idle(v, Held(v.ctl[s]).value) && |v.pool| <= MAX_IDLE_OUTBUFS
    modifies v`pool, v`owner, v`log, v.ctl
    ensures forall x {:trigger v.ctl[x]} :: 0 <= x < MAX_CONNECTIONS && x != s ==> v.ctl[x] == old(v.ctl[x])
    ensures v.ctl[s] == old(v.ctl[s]).(proto := None, udata := if Held(old(v.ctl[s])).Some? then Null else old(v.ctl[s].udata))
    ensures v.log == old(v.log) + (if old(v.ctl[s].proto.Some?) then [Callback(ConnId(s, v.gens[s]), OnClose)] else [])
    ensures if Held(old(v.ctl[s])).Some? then Released(v, Held(old(v.ctl[s])).value) else v.pool == old(v.pool) && v.owner == old(v.owner)
  {
    if v.ctl[s].proto.Some? {
      v.log := v.log + [Callback(ConnId(s, v.gens[s]), OnClose)];
      match v.ctl[s].proto.value {
        case Login =>
          if v.ctl[s].udata.Buf? {
            Release(v, v.ctl[s].udata.b);
            v.ctl[s] := v.ctl[s].(udata := Null);
          }
        case Echo =>
        case Game =>
      }
      v.ctl[s] := v.ctl[s].(proto := None);
    }
  }

  /** internal_free */
  method FreeSlot(v: Server, s: int)
    requires v.Sized() && 0 <= s < MAX_CONNECTIONS && IsUid(v.ctl[s].uid) && 0 <= v.freelist <= NO_SLOT
    modifies v`freelist, v`free, v.ctl
    ensures forall x {:trigger v.ctl[x]} :: 0 <= x < MAX_CONNECTIONS && x != s ==> v.ctl[x] == old(v.ctl[x])
    ensures v.ctl[s] == old(v.ctl[s]).(uid := FreedUid(old(v.ctl[s].uid), old(v.freelist)), inuse := false)
    ensures v.freelist == s && v.free == [s] + old(v.free)
  {
    v.ctl[s] := v.ctl[s].(uid := FreedUid(v.ctl[s].uid, v.freelist), inuse := false);
    v.freelist := s;
    v.free := [s] + v.free;
  }

  /** internal_close_operation: the protocol is told, then the slot goes back on the list. */
  method CloseSlot(v: Server, s: int)
    requires v.Sized() && 0 <= s < MAX_CONNECTIONS && IsUid(v.ctl[s].uid) && 0 <= v.freelist <= NO_SLOT
    requires Held(v.ctl[s]).Some? ==> Held(v.ctl[s]).value in v.owner && !v.owner[Held(v.ctl[s]).value].InPool? && Idle(v, Held(v.ctl[s]).value) && |v.pool| <= MAX_IDLE_OUTBUFS
    modifies v`pool, v`owner, v`log, v`freelist, v`free, v.ctl
    ensures SlotClosed(v, s)
  {
    DispatchOnClose(v, s);
    FreeSlot(v, s);
  }

  /** The close operation keeps all invariants: nothing is in flight for the slot, so no buffer in use is released. */
  method CloseOperation(v: Server, s: int)
    requires v.Inv(s) && 0 <= s < MAX_CONNECTIONS && v.ctl[s].inuse && v.ctl[s].pending == 0
    modifies v`pool, v`owner, v`log, v`freelist, v`free, v.ctl
    ensures v.Valid()
    ensures SlotClosed(v, s)
  {
    hide Server.Logged, Server.Logins, Server.Queued;
    assert v.SlotOk(s);
    if v.free != [] {
      assert v.Link(0);
    }
    if Held(v.ctl[s]).Some? {
      IdleUnlessWriting(v, v.ctl[s].udata.b);
    }
    CloseSlot(v, s);
    ClosedTable(v, s);
    ClosedLogged(v, s);
    ClosedPooled(v, s);
    ClosedLogins(v, s);
  }
}
