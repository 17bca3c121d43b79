/** Login records and their output buffers on the way between the threads (src/protocol_login.c, src/outbuf.c). */
module LoginRecords {
  import opened Options
  import opened ConnUid
  import opened ConnLog
  import opened ConnState

  /** The server task queue has refused no record. */
  ghost predicate NoneDropped(v: Server)
    reads v`place
  {
    forall l {:trigger v.place[l]} :: l in v.place ==> !v.place[l].Dropped?
  }

  /** The record is allocated and filled in. */
  method Malloc(v: Server, connection: int, ghost id: ConnId) returns (l: nat)
    modifies v`logins, v`nextLogin, v`home, v`place, v`serverTask
    ensures l == old(v.nextLogin) && v.nextLogin == l + 1 && v.serverTask == Some(l)
    ensures v.logins == old(v.logins)[l := LoginInfo(None, connection)]
    ensures v.home == old(v.home)[l := id] && v.place == old(v.place)[l := AtServer]
  {
    l := v.nextLogin;
    v.nextLogin := v.nextLogin + 1;
    v.logins := v.logins[l := LoginInfo(None, connection)];
    v.home := v.home[l := id];
    v.place := v.place[l := AtServer];
    v.serverTask := Some(l);
  }

  /** A new record `l` has been made for the connection `id`. */
  twostate predicate Made(v: Server, l: nat, connection: int, id: ConnId)
    reads v, v.ctl
  {
    && unchanged(v.ctl) && v.gens == old(v.gens) && v.nextUnused == old(v.nextUnused)
    && v.owner == old(v.owner) && v.pool == old(v.pool) && v.nextBuf == old(v.nextBuf)
    && v.dbQueue == old(v.dbQueue) && v.dbTask == old(v.dbTask) && v.serverQueue == old(v.serverQueue)
    && l == old(v.nextLogin) && v.nextLogin == l + 1 && v.serverTask == Some(l)
    && v.logins == old(v.logins)[l := LoginInfo(None, connection)]
    && v.home == old(v.home)[l := id] && v.place == old(v.place)[l := AtServer]
  }

  twostate lemma MadeLogins(v: Server, new l: nat, new id: ConnId)
    requires old(v.Sized() && v.Logins() && v.Live(id) && v.SlotOk(id.slot))
    requires old(v.ctl[id.slot].proto == Some(Login) && v.ctl[id.slot].udata.Null? && v.ctl[id.slot].firstMsg)
    requires id !in old(v.home).Values
    requires Made(v, l, UidOf(id.slot, id.gen), id)
    ensures v.Logins()
  {
    forall m {:trigger v.LoginOk(m)} | m in v.logins ensures v.LoginOk(m) {
      if m != l {
        assert old(v.LoginOk(m));
      }
    }
  }

  twostate lemma MadeRest(v: Server, new l: nat, new connection: int, new id: ConnId)
    requires old(v.Sized() && v.Pooled() && v.Logins() && v.Queued() && v.serverTask.None?)
    requires Made(v, l, connection, id)
    ensures v.Pooled() && v.logins.Keys == v.place.Keys && v.Queued()
  {
    forall x {:trigger v.Waits(x)} | x in v.place ensures v.Waits(x) {
      assert x in old(v.place) ==> old(v.Waits(x));
    }
    forall b {:trigger v.Owned(b)} | b in v.owner ensures v.Owned(b) {
      assert old(v.Owned(b));
    }
  }

  twostate lemma MadeValid(v: Server, new l: nat, new id: ConnId)
    requires old(v.Valid() && v.serverTask.None? && v.Live(id))
    requires old(v.ctl[id.slot].proto == Some(Login) && v.ctl[id.slot].udata.Null? && v.ctl[id.slot].firstMsg)
    requires id !in old(v.home).Values
    requires Made(v, l, UidOf(id.slot, id.gen), id) && v.Table() && v.SettledBut(-1) && v.Logged()
    ensures v.Valid()
  {
    assert old(v.SlotOk(id.slot));
    MadeLogins(v, l, id);
    MadeRest(v, l, UidOf(id.slot, id.gen), id);
  }

  /** kpl_malloc of a record for the live connection `id`, in the hands of the server thread. */
  method NewLogin(v: Server, connection: int, ghost id: ConnId) returns (l: nat)
    requires v.Valid() && v.serverTask.None? && v.Live(id) && connection == UidOf(id.slot, id.gen)
    requires v.ctl[id.slot].proto == Some(Login) && v.ctl[id.slot].udata.Null? && v.ctl[id.slot].firstMsg
    requires id !in v.home.Values
    modifies v`logins, v`nextLogin, v`home, v`place, v`serverTask
    ensures v.Valid() && l == old(v.nextLogin)
    ensures Made(v, old(v.nextLogin), connection, id)
  {
    l := Malloc(v, connection, id);
    MadeValid(v, l, id);
  }

  // ----- buffers -----

  /** outbuf_acquire, for the record `l`. */
  method Acquire(v: Server, l: nat) returns (b: nat)
    modifies v`pool, v`nextBuf, v`owner
    ensures old(v.pool) != [] ==> b == old(v.pool)[0] && v.pool == old(v.pool)[1..] && v.nextBuf == old(v.nextBuf)
    ensures old(v.pool) == [] ==> b == old(v.nextBuf) && v.nextBuf == b + 1 && v.pool == []
    ensures v.owner == old(v.owner)[b := ByLogin(l)]
  {
    if v.pool != [] {
      b := v.pool[0];
      v.pool := v.pool[1..];
    } else {
      b := v.nextBuf;
      v.nextBuf := v.nextBuf + 1;
    }
    v.owner := v.owner[b := ByLogin(l)];
  }

  /** The record `l` holds the newly acquired buffer `b`. */
  twostate predicate Given(v: Server, l: nat, b: nat)
    requires l in old(v.logins)
    reads v, v.ctl
  {
    && unchanged(v.ctl) && v.gens == old(v.gens) && v.nextUnused == old(v.nextUnused) && v.rd == old(v.rd) && v.wr == old(v.wr)
    && v.freelist == old(v.freelist) && v.free == old(v.free) && v.log == old(v.log)
    && v.nextLogin == old(v.nextLogin) && v.home == old(v.home) && v.place == old(v.place)
    && v.dbQueue == old(v.dbQueue) && v.dbTask == old(v.dbTask) && v.serverQueue == old(v.serverQueue) && v.serverTask == old(v.serverTask)
    && (if old(v.pool) != [] then b == old(v.pool)[0] && v.pool == old(v.pool)[1..] && v.nextBuf == old(v.nextBuf)
        else b == old(v.nextBuf) && v.nextBuf == b + 1 && v.pool == [])
    && v.owner == old(v.owner)[b := ByLogin(l)]
    && v.logins == old(v.logins)[l := old(v.logins)[l].(output := Some(b))]
  }

  twostate lemma GivenFresh(v: Server, new l: nat, new b: nat)
    requires l in old(v.logins) && old(v.Sized() && v.Pooled()) && Given(v, l, b)
    ensures b in old(v.owner) ==> old(v.owner)[b] == InPool
    ensures b !in v.pool
  {
  }

  twostate lemma GivenTable(v: Server, new l: nat, new b: nat)
    requires l in old(v.logins) && old(v.Table() && v.SettledBut(-1) && v.Pooled()) && Given(v, l, b)
    ensures v.Table() && v.SettledBut(-1)
  {
    GivenFresh(v, l, b);
    forall x | 0 <= x < MAX_CONNECTIONS ensures v.SlotOk(x) && v.Settled(x) {
      assert old(v.SlotOk(x)); assert old(v.Settled(x));
    }
  }

  twostate lemma GivenPooled(v: Server, new l: nat, new b: nat)
    requires l in old(v.logins) && old(v.Sized() && v.Pooled()) && old(v.logins)[l].output.None? && Given(v, l, b)
    ensures v.Pooled()
  {
    GivenFresh(v, l, b);
    forall x {:trigger v.Owned(x)} | x in v.owner ensures v.Owned(x) {
      if x != b {
        assert old(v.Owned(x));
      }
    }
    forall i {:trigger v.pool[i]} | 0 <= i < |v.pool| ensures v.pool[i] in v.owner && v.owner[v.pool[i]] == InPool {
      assert v.pool[i] == old(v.pool)[i + 1];
    }
  }

  twostate lemma GivenLogins(v: Server, new l: nat, new b: nat)
    requires l in old(v.logins) && old(v.Sized() && v.Pooled() && v.Logins()) && old(v.logins)[l].output.None? && Given(v, l, b)
    requires !old(v.place)[l].InDb?
    ensures v.Logins()
  {
    GivenFresh(v, l, b);
    forall m {:trigger v.LoginOk(m)} | m in v.logins ensures v.LoginOk(m) {
      assert old(v.LoginOk(m));
    }
  }

  twostate lemma GivenValid(v: Server, new l: nat, new b: nat)
    requires l in old(v.logins) && old(v.Valid()) && old(v.logins)[l].output.None? && Given(v, l, b)
    requires !old(v.place)[l].InDb? && !old(v.place)[l].InServer?
    ensures v.Valid()
  {
    GivenTable(v, l, b);
    GivenPooled(v, l, b);
    GivenLogins(v, l, b);
    assert forall c {:trigger v.Live(c)} :: v.Live(c) == old(v.Live(c));
  }

  /** build_disconnect_message, and the charlist message: the record gets an output buffer. */
  method GiveBuffer(v: Server, l: nat) returns (b: nat)
    requires v.Valid() && l in v.logins && v.logins[l].output.None? && !v.place[l].InDb? && !v.place[l].InServer?
    modifies v`pool, v`nextBuf, v`owner, v`logins
    ensures v.Valid()
    ensures Given(v, l, b)
  {
    b := Acquire(v, l);
    v.logins := v.logins[l := v.logins[l].(output := Some(b))];
    GivenValid(v, l, b);
  }

  // ----- the queues -----

  /** The record `l` has moved to `to`; nothing but its whereabouts changed. */
  twostate predicate Moved(v: Server, l: nat, to: Place)
    reads v, v.ctl
  {
    && unchanged(v.ctl) && v.gens == old(v.gens) && v.nextUnused == old(v.nextUnused) && v.owner == old(v.owner)
    && v.logins == old(v.logins) && v.nextLogin == old(v.nextLogin) && v.home == old(v.home)
    && l in old(v.place) && v.place == old(v.place)[l := to]
  }

  twostate lemma MovedLogins(v: Server, new l: nat, new to: Place)
    requires old(v.Sized() && v.Logins()) && Moved(v, l, to)
    requires to.InDb? ==> v.logins[l].output.None?
    requires to.InServer? ==> v.logins[l].output.Some?
    ensures v.Logins()
  {
    forall m {:trigger v.LoginOk(m)} | m in v.logins ensures v.LoginOk(m) {
      assert old(v.LoginOk(m));
    }
  }

  twostate predicate Pushed(v: Server, l: nat)
    reads v, v.ctl
  {
    && v.logins == old(v.logins) && l in old(v.place)
    && v.dbQueue == old(v.dbQueue) + [l] && v.serverTask == None && v.place == old(v.place)[l := InDb]
    && v.dbTask == old(v.dbTask) && v.serverQueue == old(v.serverQueue)
  }

  twostate lemma PushQueued(v: Server, new l: nat)
    requires old(v.logins.Keys == v.place.Keys && v.Queued()) && Pushed(v, l)
    requires old(v.serverTask) == Some(l)
    ensures v.logins.Keys == v.place.Keys && v.Queued()
  {
    forall x {:trigger v.Waits(x)} | x in v.place ensures v.Waits(x) {
      assert x in old(v.place) ==> old(v.Waits(x));
    }
  }

  method PushRaw(v: Server, l: nat)
    requires l in v.place
    modifies v`dbQueue, v`serverTask, v`place
    ensures Pushed(v, l)
  {
    v.dbQueue := v.dbQueue + [l];
    v.serverTask := None;
    v.place := v.place[l := InDb];
  }

  /** db_add_task, when the queue takes it: the record goes to the database thread. */
  method PushDb(v: Server, l: nat)
    requires v.Valid() && v.serverTask == Some(l) && l in v.logins && v.logins[l].output.None?
    modifies v`dbQueue, v`serverTask, v`place
    ensures v.Valid()
    ensures Pushed(v, l)
  {
    PushRaw(v, l);
    MovedLogins(v, l, InDb);
    PushQueued(v, l);
  }

  twostate predicate Fetched(v: Server, l: nat)
    reads v, v.ctl
  {
    && v.logins == old(v.logins) && l in old(v.place)
    && old(v.dbQueue) != [] && l == old(v.dbQueue)[0]
    && v.dbQueue == old(v.dbQueue)[1..] && v.dbTask == Some(l) && v.place == old(v.place)[l := AtDb]
    && v.serverTask == old(v.serverTask) && v.serverQueue == old(v.serverQueue)
  }

  twostate lemma FetchQueued(v: Server, new l: nat)
    requires old(v.logins.Keys == v.place.Keys && v.Queued()) && Fetched(v, l)
    requires old(v.dbTask).None?
    ensures v.logins.Keys == v.place.Keys && v.Queued()
  {
    forall x {:trigger v.Waits(x)} | x in v.place ensures v.Waits(x) {
      assert x in old(v.place) ==> old(v.Waits(x));
    }
  }

  method FetchRaw(v: Server, l: nat)
    requires l in v.place
    requires v.dbQueue != [] && l == v.dbQueue[0]
    modifies v`dbQueue, v`dbTask, v`place
    ensures Fetched(v, l)
  {
    v.dbTask := Some(l);
    v.dbQueue := v.dbQueue[1..];
    v.place := v.place[l := AtDb];
  }

  /** The database thread takes the oldest record. */
  method DbBegin(v: Server)
    requires v.Valid() && v.dbQueue != [] && v.dbTask.None?
    modifies v`dbQueue, v`dbTask, v`place
    ensures v.Valid()
    ensures Fetched(v, old(v.dbQueue)[0])
  {
    var l := v.dbQueue[0];
    FetchRaw(v, l);
    MovedLogins(v, l, AtDb);
    FetchQueued(v, l);
  }

  twostate predicate Posted(v: Server, l: nat, accepted: bool)
    reads v, v.ctl
  {
    && v.logins == old(v.logins) && l in old(v.place)
    && v.dbTask == None && v.serverQueue == old(v.serverQueue) + (if accepted then [l] else [])
    && v.place == old(v.place)[l := if accepted then InServer else Dropped]
    && v.serverTask == old(v.serverTask) && v.dbQueue == old(v.dbQueue)
  }

  twostate lemma PostQueued(v: Server, new l: nat, new accepted: bool)
    requires old(v.logins.Keys == v.place.Keys && v.Queued()) && Posted(v, l, accepted)
    requires old(v.dbTask) == Some(l)
    ensures v.logins.Keys == v.place.Keys && v.Queued()
  {
    forall x {:trigger v.Waits(x)} | x in v.place ensures v.Waits(x) {
      assert x in old(v.place) ==> old(v.Waits(x));
    }
  }

  method PostRaw(v: Server, l: nat, accepted: bool)
    requires l in v.place
    modifies v`dbTask, v`serverQueue, v`place
    ensures Posted(v, l, accepted)
  {
    v.dbTask := None;
    if accepted {
      v.serverQueue := v.serverQueue + [l];
    }
    v.place := v.place[l := if accepted then InServer else Dropped];
  }

  /** The end of database_resolve_login: the answered record goes to the server task queue, if that takes it. */
  method DbPost(v: Server, l: nat, accepted: bool)
    requires v.Valid() && v.dbTask == Some(l) && l in v.logins && v.logins[l].output.Some?
    modifies v`dbTask, v`serverQueue, v`place
    ensures v.Valid()
    ensures Posted(v, l, accepted)
  {
    PostRaw(v, l, accepted);
    MovedLogins(v, l, if accepted then InServer else Dropped);
    PostQueued(v, l, accepted);
  }

  twostate predicate Taken(v: Server, l: nat)
    reads v, v.ctl
  {
    && v.logins == old(v.logins) && l in old(v.place)
    && old(v.serverQueue) != [] && l == old(v.serverQueue)[0]
    && v.serverQueue == old(v.serverQueue)[1..] && v.serverTask == Some(l) && v.place == old(v.place)[l := AtServer]
    && v.dbTask == old(v.dbTask) && v.dbQueue == old(v.dbQueue)
  }

  twostate lemma TakeQueued(v: Server, new l: nat)
    requires old(v.logins.Keys == v.place.Keys && v.Queued()) && Taken(v, l)
    requires old(v.serverTask).None?
    ensures v.logins.Keys == v.place.Keys && v.Queued()
  {
    forall x {:trigger v.Waits(x)} | x in v.place ensures v.Waits(x) {
      assert x in old(v.place) ==> old(v.Waits(x));
    }
  }

  method TakeRaw(v: Server, l: nat)
    requires l in v.place
    requires v.serverQueue != [] && l == v.serverQueue[0]
    modifies v`serverQueue, v`serverTask, v`place
    ensures Taken(v, l)
  {
    v.serverTask := Some(l);
    v.serverQueue := v.serverQueue[1..];
    v.place := v.place[l := AtServer];
  }

  /** The server thread takes the oldest task. */
  method ServerBegin(v: Server) returns (l: nat)
    requires v.Valid() && v.serverQueue != [] && v.serverTask.None?
    modifies v`serverQueue, v`serverTask, v`place
    ensures v.Valid() && l == old(v.serverQueue)[0]
    ensures Taken(v, old(v.serverQueue)[0])
    ensures l in v.logins && v.logins[l].output.Some?
  {
    l := v.serverQueue[0];
    assert v.LoginOk(l);
    TakeRaw(v, l);
    MovedLogins(v, l, AtServer);
    TakeQueued(v, l);
  }
}
