/** What holds in every state a run can reach. */
module ConnTheorems {
  import opened Options
  import opened ConnUid
  import opened ConnLog
  import opened ConnState
  import opened ConnTable
  import opened ConnIo
  import opened LoginRecords

  /** The counter of pending work is the number of operations in flight, at most one read and one write; a closing
      connection has some left. */
  lemma PendingIsInFlight(v: Server, s: int)
    requires v.Valid() && 0 <= s < MAX_CONNECTIONS && v.ctl[s].inuse
    ensures v.ctl[s].pending == (if s in v.rd then 1 else 0) + (if s in v.wr then 1 else 0)
    ensures v.ctl[s].closing ==> v.ctl[s].pending > 0
    ensures !v.ctl[s].closing ==> (v.ctl[s].output <==> s in v.wr)
  {
    assert v.SlotOk(s) && v.Settled(s);
  }

  /** A completion finds the very connection that started the operation. */
  lemma CompletionFindsItsConnection(v: Server, s: int)
    requires v.Valid() && (s in v.rd || s in v.wr)
    ensures 0 <= s < MAX_CONNECTIONS && v.ctl[s].inuse
    ensures s in v.rd ==> v.ctl[s].uid == UidOf(s, v.rd[s].gen) && v.Live(ConnId(s, v.rd[s].gen))
    ensures s in v.wr ==> v.ctl[s].uid == UidOf(s, v.wr[s].gen) && v.Live(ConnId(s, v.wr[s].gen))
  {
    assert v.SlotOk(s);
    UidDetermined(v.ctl[s].uid, s, v.gens[s]);
  }

  /** A slot that has been used is either in use, its identifier naming it, or on the free list, exactly once; the
      list follows the identifiers and ends with 0xFFFF. */
  lemma SlotsArePartitioned(v: Server, s: int)
    requires v.Valid() && 0 <= s < v.nextUnused
    ensures v.ctl[s].inuse <==> s !in v.free
    ensures v.ctl[s].inuse <==> Lo(v.ctl[s].uid) == s
    ensures !v.ctl[s].inuse ==> exists i {:trigger v.free[i]} :: 0 <= i < |v.free| && v.free[i] == s && Lo(v.ctl[s].uid) == (if i + 1 < |v.free| then v.free[i + 1] else NO_SLOT)
    ensures forall i, j :: 0 <= i < j < |v.free| && v.free[i] == s ==> v.free[j] != s
  {
    assert v.SlotOk(s) && v.Placed(s);
    if s in v.free {
      var i :| 0 <= i < |v.free| && v.free[i] == s;
      assert v.Link(i);
      FreedUidDiffers(v, s);
    }
  }

  /** The slots on the list are the unused ones below next_unused_slot. */
  lemma FreeSlotIsUnused(v: Server, i: int)
    requires v.Valid() && 0 <= i < |v.free|
    ensures 0 <= v.free[i] < v.nextUnused && !v.ctl[v.free[i]].inuse
  {
    assert v.Link(i);
  }

  /** Once a connection is gone its identifier is refused until its slot has been allocated 65536 times more. */
  lemma StaleUidRefused(v: Server, s: int, g: nat)
    requires v.Valid() && 0 <= s < MAX_CONNECTIONS && 0 < g <= v.gens[s] < g + 0x10000 && !v.Live(ConnId(s, g))
    ensures v.ctl[s].uid != UidOf(s, g)
  {
    LookupIsLive(v, s, g);
    SameTurnNearby(v.gens[s], g);
  }

  /** After exactly 65536 more allocations the old identifier is taken for the new connection. */
  lemma StaleUidAcceptedAgain(v: Server, s: int, g: nat)
    requires v.Valid() && 0 <= s < MAX_CONNECTIONS && 0 < g && v.gens[s] == g + 0x10000 && v.ctl[s].inuse
    ensures v.ctl[s].uid == UidOf(s, g) && !v.Live(ConnId(s, g))
  {
    assert SameTurn(v.gens[s], g);
    LookupIsLive(v, s, g);
  }

  /** A connection that had a protocol and is gone got OnClose, exactly once, and no callback after that. */
  lemma ClosedExactlyOnce(v: Server, i: int)
    requires v.Valid() && 0 <= i < |v.log| && v.log[i].kind.OnAssign? && !v.Live(v.log[i].conn)
    ensures exists j {:trigger v.log[j]} :: 0 <= j < |v.log| && v.log[j] == Callback(v.log[i].conn, OnClose) && forall k {:trigger v.log[k]} :: j < k < |v.log| ==> v.log[k].conn != v.log[i].conn
    ensures forall j, k :: 0 <= j < k < |v.log| && v.log[j] == Callback(v.log[i].conn, OnClose) ==> v.log[k] != v.log[j]
  {
    var c := v.log[i].conn;
    AssignedHas(v.log, i);
    assert c in Assigned(v.log);
    ClosedWitness(v.log, c);
    var j :| 0 <= j < |v.log| && v.log[j] == Callback(c, OnClose);
    forall k | j < k < |v.log| ensures v.log[k].conn != c {
      NothingAfterClose(v.log, j, k);
    }
    forall j, k | 0 <= j < k < |v.log| && v.log[j] == Callback(c, OnClose) ensures v.log[k] != v.log[j] {
      NothingAfterClose(v.log, j, k);
    }
  }

  /** A connection that still has operations in flight has not got OnClose. */
  lemma NotClosedWhilePending(v: Server, s: int)
    requires v.Valid() && (s in v.rd || s in v.wr)
    ensures Callback(ConnId(s, v.gens[s]), OnClose) !in v.log
  {
    assert v.SlotOk(s);
    var c := ConnId(s, v.gens[s]);
    assert v.Live(c);
    forall i | 0 <= i < |v.log| ensures v.log[i] != Callback(c, OnClose) {
      if v.log[i].kind.OnClose? {
        ClosedHas(v.log, i);
      }
    }
  }

  // ----- buffers -----

  ghost predicate HeldByLogin(v: Server, b: nat, l: nat)
    reads v`logins
  {
    l in v.logins && v.logins[l].output == Some(b)
  }

  ghost predicate HeldByConn(v: Server, b: nat, s: int)
    requires v.Sized()
    reads v`nextUnused, v`gens, v.ctl
  {
    0 <= s < MAX_CONNECTIONS && v.ctl[s].inuse && Held(v.ctl[s]) == Some(b)
  }

  /** A buffer has exactly one holder: one record, one connection, or the pool. */
  lemma OneHolder(v: Server, b: nat)
    requires v.Valid() && b in v.owner
    ensures match v.owner[b]
            case ByLogin(l) => HeldByLogin(v, b, l) && b !in v.pool && (forall m :: HeldByLogin(v, b, m) ==> m == l) && (forall s :: !HeldByConn(v, b, s))
            case ByConn(s) => HeldByConn(v, b, s) && b !in v.pool && (forall t :: HeldByConn(v, b, t) ==> t == s) && (forall l :: !HeldByLogin(v, b, l))
            case InPool => b in v.pool && (forall l :: !HeldByLogin(v, b, l)) && (forall s :: !HeldByConn(v, b, s))
  {
    assert v.Owned(b);
    forall l | HeldByLogin(v, b, l) ensures v.owner[b] == ByLogin(l) {
      assert v.LoginOk(l);
    }
    forall s | HeldByConn(v, b, s) ensures v.owner[b] == ByConn(s) {
      assert v.SlotOk(s);
    }
    assert b in v.pool ==> v.owner[b] == InPool;
  }

  /** Whoever holds a buffer holds one that has not been freed. */
  lemma NoDanglingHolder(v: Server, b: nat, l: nat, s: int)
    requires v.Valid()
    ensures HeldByLogin(v, b, l) || HeldByConn(v, b, s) || b in v.pool ==> b in v.owner
  {
    if HeldByLogin(v, b, l) {
      assert v.LoginOk(l);
    }
    if HeldByConn(v, b, s) {
      assert v.SlotOk(s);
    }
  }

  /** A buffer that is being written is held by the connection writing it, not by the pool or a record. */
  lemma WrittenBufferIsHeld(v: Server, s: int, b: nat)
    requires v.Valid() && s in v.wr && v.wr[s].data == Buf(b)
    ensures HeldByConn(v, b, s) && b !in v.pool
  {
    WrittenByItsOwner(v, s, b);
    assert v.SlotOk(s) && v.Owned(b);
    OneHolder(v, b);
  }

  /** When no connection is left, no task waits or runs and the server task queue has refused none, every record has
      been freed and every buffer is back in the pool or freed. */
  lemma NothingLeaks(v: Server)
    requires v.Valid() && NoneDropped(v)
    requires forall s {:trigger v.ctl[s]} :: 0 <= s < MAX_CONNECTIONS ==> !v.ctl[s].inuse
    requires v.dbQueue == [] && v.dbTask.None? && v.serverQueue == [] && v.serverTask.None?
    ensures v.logins.Keys == {}
    ensures forall b {:trigger b in v.owner} :: b in v.owner ==> b in v.pool
    ensures v.rd == map[] && v.wr == map[]
  {
    forall l ensures l !in v.logins {
      RecordIsSomewhere(v, l);
    }
    forall b | b in v.owner ensures b in v.pool {
      assert v.Owned(b);
    }
    forall s ensures s !in v.rd && s !in v.wr {
      OperationsNeedAConnection(v, s);
    }
  }

  lemma OperationsNeedAConnection(v: Server, s: int)
    requires v.Table()
    ensures s in v.rd || s in v.wr ==> 0 <= s < MAX_CONNECTIONS && v.ctl[s].inuse
  {
    assert 0 <= s < MAX_CONNECTIONS ==> v.SlotOk(s);
  }

  /** A record that was not refused waits in one of the two queues or is in the hands of one of the two threads. */
  lemma RecordIsSomewhere(v: Server, l: nat)
    requires v.Valid() && NoneDropped(v)
    ensures l in v.logins ==> l in v.dbQueue || v.dbTask == Some(l) || l in v.serverQueue || v.serverTask == Some(l)
  {
    assert l in v.place ==> v.Waits(l);
  }

  /** An answered login whose connection is still there finds it waiting for the answer. */
  lemma AnswerFindsItsConnection(v: Server, l: nat)
    requires v.Valid() && l in v.logins
    ensures 0 <= Lo(v.logins[l].connection) < MAX_CONNECTIONS
    ensures v.ctl[Lo(v.logins[l].connection)].uid == v.logins[l].connection ==>
              var c := v.ctl[Lo(v.logins[l].connection)]; c.inuse && c.proto == Some(Login) && c.udata.Null? && c.pending == 0 && !c.output
  {
    assert v.LoginOk(l);
    var s := v.home[l].slot;
    LookupIsLive(v, s, v.home[l].gen);
    SameTurnNearby(v.gens[s], v.home[l].gen);
    assert v.SlotOk(s) && v.Settled(s);
  }
}
