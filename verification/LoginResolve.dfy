/** The end of a login record: its answer goes to the connection, if that is still there (src/protocol_login.c:107-127). */
module LoginResolve {
  import opened Options
  import opened ConnUid
  import opened ConnLog
  import opened ConnState
  import opened ConnTable
  import opened ConnIo

  /** The record `l` has been freed by the server thread. */
  twostate predicate Freed(v: Server, l: nat)
    reads v
  {
    && v.logins == old(v.logins) - {l} && v.home == old(v.home) - {l} && v.place == old(v.place) - {l} && v.nextLogin == old(v.nextLogin)
    && v.serverTask == None && v.serverQueue == old(v.serverQueue) && v.dbTask == old(v.dbTask) && v.dbQueue == old(v.dbQueue)
  }

  /** kpl_free of a record: it has to be one that is outstanding. */
  method FreeRecord(v: Server, l: nat)
    requires l in v.logins
    modifies v`logins, v`home, v`place, v`serverTask
    ensures Freed(v, l)
  {
    v.logins := v.logins - {l};
    v.home := v.home - {l};
    v.place := v.place - {l};
    v.serverTask := None;
  }

  twostate lemma FreedQueued(v: Server, new l: nat)
    requires old(v.logins.Keys == v.place.Keys && v.Queued()) && old(v.serverTask) == Some(l) && Freed(v, l)
    ensures v.logins.Keys == v.place.Keys && v.Queued()
  {
    forall x {:trigger v.Waits(x)} | x in v.place ensures v.Waits(x) {
      assert x in old(v.place) ==> old(v.Waits(x));
    }
  }

  /** Everything about the connections and buffers that resolving a login never touches. */
  twostate predicate Apart(v: Server)
    reads v, v.ctl
  {
    && v.freelist == old(v.freelist) && v.free == old(v.free) && v.nextUnused == old(v.nextUnused) && v.gens == old(v.gens)
    && v.rd == old(v.rd) && v.log == old(v.log) && v.nextBuf == old(v.nextBuf)
  }

  // ----- the connection is gone -----

  twostate predicate Discarded(v: Server, l: nat, b: nat)
    reads v, v.ctl
  {
    Freed(v, l) && Apart(v) && unchanged(v.ctl) && v.wr == old(v.wr) && Released(v, b)
  }

  twostate lemma DiscardedTable(v: Server, new l: nat, new b: nat)
    requires old(v.Valid()) && Discarded(v, l, b) && b in old(v.owner) && old(v.owner)[b] == ByLogin(l)
    ensures v.Table() && v.SettledBut(-1) && v.Logged()
  {
    forall x | 0 <= x < MAX_CONNECTIONS ensures v.SlotOk(x) && v.Settled(x) {
      assert old(v.SlotOk(x)); assert old(v.Settled(x));
    }
    assert forall c {:trigger v.Live(c)} :: v.Live(c) == old(v.Live(c));
  }

  twostate lemma DiscardedPooled(v: Server, new l: nat, new b: nat)
    requires old(v.Valid()) && Discarded(v, l, b) && b in old(v.owner) && old(v.owner)[b] == ByLogin(l)
    requires l in old(v.logins) && old(v.logins)[l].output == Some(b)
    ensures v.Pooled()
  {
    forall x {:trigger v.Owned(x)} | x in v.owner ensures v.Owned(x) {
      assert old(v.Owned(x));
    }
  }

  twostate lemma DiscardedLogins(v: Server, new l: nat, new b: nat)
    requires old(v.Valid()) && Discarded(v, l, b) && b in old(v.owner) && old(v.owner)[b] == ByLogin(l)
    ensures v.Logins()
  {
    forall m {:trigger v.LoginOk(m)} | m in v.logins ensures v.LoginOk(m) {
      assert old(v.LoginOk(m));
    }
  }

  method DiscardRaw(v: Server, l: nat, b: nat)
    requires l in v.logins && b in v.owner && v.owner[b] == ByLogin(l) && Idle(v, b) && |v.pool| <= MAX_IDLE_OUTBUFS
    modifies v`pool, v`owner, v`logins, v`home, v`place, v`serverTask
    ensures Discarded(v, l, b)
  {
    Release(v, b);
    FreeRecord(v, l);
  }

  method Discard(v: Server, l: nat, b: nat)
    requires v.Valid() && v.serverTask == Some(l) && l in v.logins && v.logins[l].output == Some(b)
    modifies v`pool, v`owner, v`logins, v`home, v`place, v`serverTask
    ensures v.Valid() && Discarded(v, l, b)
  {
    assert v.LoginOk(l);
    IdleUnlessWriting(v, b);
    DiscardRaw(v, l, b);
    DiscardedTable(v, l, b);
    DiscardedPooled(v, l, b);
    DiscardedLogins(v, l, b);
    FreedQueued(v, l);
  }

  // ----- the connection is there -----

  /** Slot `s` of the record's connection holds the buffer, and is writing it when the system accepted the write. */
  twostate predicate Delivered(v: Server, l: nat, b: nat, s: int, ok: bool)
    reads v, v.ctl
  {
    && Freed(v, l) && Apart(v) && v.Sized() && 0 <= s < MAX_CONNECTIONS
    && (forall x {:trigger v.ctl[x]} :: 0 <= x < MAX_CONNECTIONS && x != s ==> v.ctl[x] == old(v.ctl[x]))
    && v.ctl[s] == old(v.ctl[s]).(udata := Buf(b), outputData := Buf(b), output := ok, pending := old(v.ctl[s]).pending + if ok then 1 else 0)
    && v.wr == (if ok then old(v.wr)[s := WriteOp(v.gens[s], Buf(b))] else old(v.wr))
    && v.pool == old(v.pool) && v.owner == old(v.owner)[b := ByConn(s)]
  }

  /** What is known of the connection a record belongs to while it is there. */
  ghost predicate Expecting(v: Server, l: nat, b: nat, s: int)
    reads v, v.ctl
  {
    && v.Valid() && 0 <= s < MAX_CONNECTIONS && l in v.logins && v.logins[l].output == Some(b)
    && v.home[l] == ConnId(s, v.gens[s]) && v.Live(v.home[l])
  }

  lemma ExpectingFacts(v: Server, l: nat, b: nat, s: int)
    requires Expecting(v, l, b, s)
    ensures b in v.owner && v.owner[b] == ByLogin(l)
    ensures v.ctl[s].proto == Some(Login) && v.ctl[s].udata.Null? && v.ctl[s].firstMsg && s !in v.rd && s !in v.wr
    ensures v.ctl[s].inuse && v.ctl[s].pending == 0 && !v.ctl[s].closing && !v.ctl[s].output
  {
    assert v.LoginOk(l); assert v.SlotOk(s); assert v.Settled(s);
  }

  twostate lemma DeliveredSlots(v: Server, new l: nat, new b: nat, new s: int, new ok: bool, new x: int)
    requires old(Expecting(v, l, b, s)) && Delivered(v, l, b, s, ok) && 0 <= x < MAX_CONNECTIONS
    ensures v.SlotOk(x) && v.Settled(x)
  {
    assert old(v.LoginOk(l)); assert old(v.SlotOk(s)); assert old(v.Settled(s));
    assert old(v.SlotOk(x)); assert old(v.Settled(x));
  }

  twostate lemma DeliveredTable(v: Server, new l: nat, new b: nat, new s: int, new ok: bool)
    requires old(Expecting(v, l, b, s)) && Delivered(v, l, b, s, ok)
    ensures v.Table() && v.SettledBut(-1)
  {
    forall x | 0 <= x < MAX_CONNECTIONS ensures v.SlotOk(x) && v.Settled(x) {
      DeliveredSlots(v, l, b, s, ok, x);
    }
    ListKept(v);
  }

  twostate lemma DeliveredPooled(v: Server, new l: nat, new b: nat, new s: int, new ok: bool)
    requires old(Expecting(v, l, b, s)) && Delivered(v, l, b, s, ok)
    ensures v.Pooled() && v.Logged()
  {
    assert old(v.LoginOk(l)); assert old(v.SlotOk(s)); assert old(v.Settled(s));
    forall x {:trigger v.Owned(x)} | x in v.owner ensures v.Owned(x) {
      assert old(v.Owned(x));
    }
    assert forall c {:trigger v.Live(c)} :: v.Live(c) == old(v.Live(c));
  }

  twostate lemma DeliveredLogins(v: Server, new l: nat, new b: nat, new s: int, new ok: bool)
    requires old(Expecting(v, l, b, s)) && Delivered(v, l, b, s, ok)
    ensures v.Logins()
  {
    assert old(v.LoginOk(l)); assert old(v.SlotOk(s)); assert old(v.Settled(s));
    forall m {:trigger v.LoginOk(m)} | m in v.logins ensures v.LoginOk(m) {
      assert old(v.LoginOk(m));
      assert old(v.home)[m] != old(v.home)[l];
    }
  }

  method DeliverRaw(v: Server, l: nat, b: nat, s: int, ok: bool)
    requires l in v.logins && v.Sized() && 0 <= s < MAX_CONNECTIONS && Lo(v.ctl[s].uid) == s && !v.ctl[s].output
    modifies v`wr, v`owner, v`logins, v`home, v`place, v`serverTask, v.ctl
    ensures Delivered(v, l, b, s, ok)
  {
    v.ctl[s] := v.ctl[s].(udata := Buf(b));
    v.owner := v.owner[b := ByConn(s)];
    var sent := ConnectionSend(v, v.ctl[s].uid, Buf(b), ok);
    FreeRecord(v, l);
  }

  method Deliver(v: Server, l: nat, b: nat, s: int, ok: bool)
    requires Expecting(v, l, b, s) && v.serverTask == Some(l)
    modifies v`wr, v`owner, v`logins, v`home, v`place, v`serverTask, v.ctl
    ensures v.Valid() && Delivered(v, l, b, s, ok)
  {
    ExpectingFacts(v, l, b, s);
    assert v.SlotOk(s);
    DeliverRaw(v, l, b, s, ok);
    DeliveredTable(v, l, b, s, ok);
    DeliveredPooled(v, l, b, s, ok);
    DeliveredLogins(v, l, b, s, ok);
    FreedQueued(v, l);
  }

  // ----- there is no answer -----

  twostate predicate Dismissed(v: Server, l: nat)
    reads v, v.ctl
  {
    Freed(v, l) && Apart(v) && unchanged(v.ctl) && v.wr == old(v.wr) && v.pool == old(v.pool) && v.owner == old(v.owner)
  }

  twostate lemma DismissedRest(v: Server, new l: nat)
    requires old(v.Valid()) && Dismissed(v, l) && l in old(v.logins) && old(v.logins)[l].output.None?
    ensures v.Pooled() && v.Logins()
  {
    forall x {:trigger v.Owned(x)} | x in v.owner ensures v.Owned(x) {
      assert old(v.Owned(x));
    }
    forall m {:trigger v.LoginOk(m)} | m in v.logins ensures v.LoginOk(m) {
      assert old(v.LoginOk(m));
    }
  }

  method Dismiss(v: Server, l: nat)
    requires v.Valid() && v.serverTask == Some(l) && l in v.logins && v.logins[l].output.None?
    modifies v`logins, v`home, v`place, v`serverTask
    ensures v.Valid() && Dismissed(v, l)
  {
    FreeRecord(v, l);
    DismissedRest(v, l);
    FreedQueued(v, l);
  }

  // ----- both -----

  /** The record's identifier is still accepted exactly when its own connection is. */
  lemma RecordFindsItsConnection(v: Server, l: nat)
    requires v.Table() && v.Logins() && l in v.logins
    ensures 0 <= Lo(v.logins[l].connection) < MAX_CONNECTIONS && v.home[l].slot == Lo(v.logins[l].connection)
    ensures v.ctl[Lo(v.logins[l].connection)].uid == v.logins[l].connection <==> v.Live(v.home[l])
  {
    assert v.LoginOk(l);
    var c := v.home[l];
    LookupIsLive(v, c.slot, c.gen);
    SameTurnNearby(v.gens[c.slot], c.gen);
  }

  /** internal_resolve_login; `ok` is what the system answers to the write. */
  method ResolveLogin(v: Server, l: nat, ok: bool)
    requires v.Valid() && v.serverTask == Some(l) && l in v.logins
    modifies v`wr, v`pool, v`owner, v`logins, v`home, v`place, v`serverTask, v.ctl
    ensures v.Valid() && Freed(v, l)
    ensures old(v.logins)[l].output.Some? && old(v.Live(v.home[l])) ==> Delivered(v, l, old(v.logins)[l].output.value, old(v.home)[l].slot, ok)
    ensures old(v.logins)[l].output.Some? && old(!v.Live(v.home[l])) ==> Discarded(v, l, old(v.logins)[l].output.value)
    ensures old(v.logins)[l].output.None? ==> Dismissed(v, l)
  {
    RecordFindsItsConnection(v, l);
    var uid := v.logins[l].connection;
    if v.logins[l].output.Some? {
      if v.ctl[Lo(uid)].uid == uid {
        Deliver(v, l, v.logins[l].output.value, Lo(uid), ok);
      } else {
        Discard(v, l, v.logins[l].output.value);
      }
    } else {
      Dismiss(v, l);
    }
  }
}
