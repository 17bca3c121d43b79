/** The callbacks of the protocols and how they are dispatched. */
module ConnProtocol {
  import opened Options
  import opened ConnUid
  import opened ConnLog
  import opened ConnState
  import opened ConnSpec
  import opened ConnTable
  import opened ConnIo
  import opened LoginRecords
  import opened LoginResolve

  /** All fields but the log and slot `s` are as they were. */
  twostate predicate Around(v: Server, s: int)
    reads v, v.ctl
  {
    && v.Sized() && 0 <= s < MAX_CONNECTIONS
    && (forall x {:trigger v.ctl[x]} :: 0 <= x < MAX_CONNECTIONS && x != s ==> v.ctl[x] == old(v.ctl[x]))
    && v.rd == old(v.rd) && v.wr == old(v.wr)
    && v.freelist == old(v.freelist) && v.free == old(v.free) && v.pool == old(v.pool) && v.owner == old(v.owner)
    && v.nextUnused == old(v.nextUnused) && v.gens == old(v.gens)
    && v.nextBuf == old(v.nextBuf) && v.logins == old(v.logins) && v.nextLogin == old(v.nextLogin) && v.dbQueue == old(v.dbQueue)
    && v.dbTask == old(v.dbTask) && v.serverQueue == old(v.serverQueue) && v.serverTask == old(v.serverTask) && v.home == old(v.home) && v.place == old(v.place)
  }

  // ----- on_assign_protocol -----

  twostate predicate AssignedTo(v: Server, s: int, p: Proto)
    reads v, v.ctl
  {
    && Around(v, s)
    && v.ctl[s] == old(v.ctl[s]).(proto := Some(p), udata := Fresh(p))
    && v.log == old(v.log) + [Callback(ConnId(s, v.gens[s]), OnAssign)]
  }

  twostate lemma AssignedTable(v: Server, new s: int, new p: Proto)
    requires old(v.Valid()) && AssignedTo(v, s, p) && old(v.ctl[s].inuse && v.ctl[s].proto.None?) && s !in v.rd
    ensures v.Table() && v.SettledBut(-1)
  {
    forall x | 0 <= x < MAX_CONNECTIONS ensures v.SlotOk(x) && v.Settled(x) {
      assert old(v.SlotOk(x)); assert old(v.Settled(x));
    }
    ListKept(v);
  }

  twostate lemma AssignedLogged(v: Server, new s: int, new p: Proto)
    requires old(v.Valid()) && AssignedTo(v, s, p) && old(v.ctl[s].inuse && v.ctl[s].proto.None?)
    ensures v.Logged()
  {
    var id := ConnId(s, v.gens[s]);
    assert old(v.Live(id));
    Append(old(v.log), Callback(id, OnAssign));
    assert forall c {:trigger v.Live(c)} :: v.Live(c) == old(v.Live(c));
  }

  twostate lemma AssignedRest(v: Server, new s: int, new p: Proto)
    requires old(v.Valid()) && AssignedTo(v, s, p) && old(v.ctl[s].inuse && v.ctl[s].proto.None?)
    ensures v.Pooled() && v.Logins()
  {
    forall b {:trigger v.Owned(b)} | b in v.owner ensures v.Owned(b) {
      assert old(v.Owned(b));
    }
    forall l {:trigger v.LoginOk(l)} | l in v.logins ensures v.LoginOk(l) {
      assert old(v.LoginOk(l));
    }
  }

  /** The protocol is set and sets up its user data. */
  method Assign(v: Server, s: int, p: Proto)
    requires v.Valid() && 0 <= s < MAX_CONNECTIONS && v.ctl[s].inuse && v.ctl[s].proto.None? && s !in v.rd
    modifies v`log, v.ctl
    ensures v.Valid() && AssignedTo(v, s, p)
  {
    v.ctl[s] := v.ctl[s].(proto := Some(p), udata := Fresh(p));
    v.log := v.log + [Callback(ConnId(s, v.gens[s]), OnAssign)];
    AssignedTable(v, s, p);
    AssignedLogged(v, s, p);
    AssignedRest(v, s, p);
  }

  // ----- other callbacks -----

  twostate predicate Noted(v: Server, s: int, kind: Kind, first: bool)
    reads v, v.ctl
  {
    && Around(v, s)
    && v.ctl[s] == old(v.ctl[s]).(firstMsg := first)
    && v.log == old(v.log) + [Callback(ConnId(s, v.gens[s]), kind)]
  }

  twostate lemma NotedTable(v: Server, new s: int, new kind: Kind, new first: bool, new t: int)
    requires old(v.Inv(t)) && Noted(v, s, kind, first) && old(v.ctl[s].inuse && v.ctl[s].proto.Some?) && (old(v.ctl[s]).firstMsg ==> first)
    ensures v.Table() && v.SettledBut(t)
  {
    forall x | 0 <= x < MAX_CONNECTIONS ensures v.SlotOk(x) && (x != t ==> v.Settled(x)) {
      assert old(v.SlotOk(x));
      if x != t {
        assert old(v.Settled(x));
      }
    }
    ListKept(v);
  }

  twostate lemma NotedLogged(v: Server, new s: int, new kind: Kind, new first: bool, new t: int)
    requires old(v.Inv(t)) && Noted(v, s, kind, first) && old(v.ctl[s].inuse && v.ctl[s].proto.Some?) && !kind.OnAssign? && !kind.OnClose?
    ensures v.Logged()
  {
    var id := ConnId(s, v.gens[s]);
    assert old(v.Live(id));
    Append(old(v.log), Callback(id, kind));
    assert forall c {:trigger v.Live(c)} :: v.Live(c) == old(v.Live(c));
  }

  twostate lemma NotedRest(v: Server, new s: int, new kind: Kind, new first: bool, new t: int)
    requires old(v.Inv(t)) && Noted(v, s, kind, first) && (old(v.ctl[s]).firstMsg ==> first)
    ensures v.Pooled() && v.Logins()
  {
    forall b {:trigger v.Owned(b)} | b in v.owner ensures v.Owned(b) {
      assert old(v.Owned(b));
    }
    forall l {:trigger v.LoginOk(l)} | l in v.logins ensures v.LoginOk(l) {
      assert old(v.LoginOk(l));
    }
  }

  /** A callback other than on_assign_protocol and on_close is about to run; `first` is the FIRST_MSG flag it runs under. */
  method Note(v: Server, s: int, kind: Kind, first: bool, ghost t: int)
    requires v.Inv(t) && 0 <= s < MAX_CONNECTIONS && v.ctl[s].inuse && v.ctl[s].proto.Some? && !kind.OnAssign? && !kind.OnClose?
    requires v.ctl[s].firstMsg ==> first
    modifies v`log, v.ctl
    ensures v.Inv(t) && Noted(v, s, kind, first)
  {
    v.ctl[s] := v.ctl[s].(firstMsg := first);
    v.log := v.log + [Callback(ConnId(s, v.gens[s]), kind)];
    NotedTable(v, s, kind, first, t);
    NotedLogged(v, s, kind, first, t);
    NotedRest(v, s, kind, first, t);
  }

  // ----- echo and game -----

  /** A protocol's own call of connection_send leaves everything in order. */
  twostate lemma SentInv(v: Server, new s: int)
    requires old(v.Valid()) && Tuned(v, s) && old(!v.ctl[s].closing && !v.ctl[s].output) && old(v.ctl[s].proto == Some(Echo) || v.ctl[s].proto == Some(Game))
    requires !v.ctl[s].closing && v.ctl[s].bodylen == old(v.ctl[s].bodylen) && v.rd == old(v.rd) && (Ready(v.ctl[s].udata) ==> s !in v.wr)
    requires (s in v.wr) == v.ctl[s].output && v.ctl[s].pending == old(v.ctl[s]).pending + (if v.ctl[s].output then 1 else 0)
    requires s in v.wr ==> v.wr[s] == WriteOp(v.gens[s], v.ctl[s].outputData) && !v.ctl[s].outputData.Buf?
    requires old(s !in v.wr)
    ensures v.Valid()
  {
    assert old(v.SlotOk(s)); assert old(v.Settled(s));
    TunedInv(v, s, -1);
    assert v.Settled(s);
  }

  /** echo: the message goes back when no earlier answer is still being written. */
  method EchoRecv(v: Server, s: int, ok: bool)
    requires v.Valid() && 0 <= s < MAX_CONNECTIONS && v.ctl[s].inuse && !v.ctl[s].closing && v.ctl[s].proto == Some(Echo)
    modifies v`wr, v.ctl
    ensures v.Valid() && Tuned(v, s) && !v.ctl[s].closing && v.rd == old(v.rd)
    ensures v.ctl[s] == Echoed(old(v.ctl[s]), ok)
    ensures s in v.wr <==> old(s in v.wr) || (Ready(old(v.ctl[s]).udata) && ok)
  {
    assert v.SlotOk(s); assert v.Settled(s);
    hide Server.Listed, Server.Logged, Server.Pooled, Server.Logins, Server.Queued;
    if Ready(v.ctl[s].udata) {
      var sent := ConnectionSend(v, v.ctl[s].uid, v.ctl[s].udata, ok);
      if sent {
        v.ctl[s] := v.ctl[s].(udata := Handle(false));
      }
      SentInv(v, s);
    }
  }

  /** game: the challenge is sent as soon as the connection is there. */
  method GameConnect(v: Server, s: int, ok: bool)
    requires v.Valid() && 0 <= s < MAX_CONNECTIONS && v.ctl[s].inuse && !v.ctl[s].closing && v.ctl[s].proto == Some(Game) && s !in v.wr
    modifies v`wr, v.ctl
    ensures v.Valid() && Tuned(v, s) && !v.ctl[s].closing && v.rd == old(v.rd)
    ensures v.ctl[s] == Sent(old(v.ctl[s]), Static, ok) && (s in v.wr <==> ok)
  {
    assert v.SlotOk(s); assert v.Settled(s);
    var sent := ConnectionSend(v, v.ctl[s].uid, Static, ok);
    SentInv(v, s);
  }

  // ----- login -----

  /** The answer is made and handed to the connection that asked. */
  method Answer(v: Server, l: nat, s: int, ok: bool) returns (b: nat)
    requires v.Valid() && v.serverTask == Some(l) && l in v.logins && v.logins[l].output.None? && !v.place[l].InDb? && !v.place[l].InServer?
    requires 0 <= s < MAX_CONNECTIONS && v.home[l] == ConnId(s, v.gens[s]) && v.ctl[s].inuse
    modifies v`pool, v`nextBuf, v`owner, v`logins, v`wr, v`home, v`place, v`serverTask, v.ctl
    ensures v.Valid() && v.serverTask.None? && v.gens == old(v.gens) && v.rd == old(v.rd) && OthersKept(v, s)
    ensures v.ctl[s] == Answered(old(v.ctl[s]), b, ok) && v.logins == old(v.logins) - {l} && v.place == old(v.place) - {l}
    ensures v.wr == if ok then old(v.wr)[s := WriteOp(v.gens[s], Buf(b))] else old(v.wr)
  {
    b := GiveBuffer(v, l);
    HandOver(v, l, b, s, ok);
  }

  /** The record's own connection is there: it gets the answer. */
  method HandOver(v: Server, l: nat, b: nat, s: int, ok: bool)
    requires v.Valid() && v.serverTask == Some(l) && l in v.logins && v.logins[l].output == Some(b)
    requires 0 <= s < MAX_CONNECTIONS && l in v.home && v.home[l] == ConnId(s, v.gens[s]) && v.ctl[s].inuse
    modifies v`wr, v`pool, v`owner, v`logins, v`home, v`place, v`serverTask, v.ctl
    ensures v.Valid() && Delivered(v, l, b, s, ok)
  {
    assert v.Live(v.home[l]);
    ResolveLogin(v, l, ok);
  }

  /** The record that on_recv_first_message makes carries the connection's identifier. */
  method Ask(v: Server, s: int) returns (l: nat)
    requires v.Valid() && v.serverTask.None? && 0 <= s < MAX_CONNECTIONS && v.ctl[s].inuse
    requires v.ctl[s].proto == Some(Login) && v.ctl[s].udata.Null? && v.ctl[s].firstMsg && ConnId(s, v.gens[s]) !in v.home.Values
    modifies v`logins, v`nextLogin, v`home, v`place, v`serverTask
    ensures v.Valid() && l == old(v.nextLogin)
    ensures Made(v, l, v.ctl[s].uid, ConnId(s, v.gens[s]))
  {
    assert v.SlotOk(s);
    UidDetermined(v.ctl[s].uid, s, v.gens[s]);
    assert v.Live(ConnId(s, v.gens[s]));
    l := NewLogin(v, v.ctl[s].uid, ConnId(s, v.gens[s]));
  }

  /** The request could not be served: the connection that asked is told so. */
  method Refuse(v: Server, s: int, ok: bool) returns (b: nat)
    requires v.Valid() && v.serverTask.None? && 0 <= s < MAX_CONNECTIONS && v.ctl[s].inuse
    requires v.ctl[s].proto == Some(Login) && v.ctl[s].udata.Null? && v.ctl[s].firstMsg && ConnId(s, v.gens[s]) !in v.home.Values
    modifies v`pool, v`nextBuf, v`owner, v`logins, v`nextLogin, v`wr, v`home, v`place, v`serverTask, v.ctl
    ensures v.Valid() && v.serverTask.None? && v.gens == old(v.gens) && v.rd == old(v.rd) && OthersKept(v, s)
    ensures old(NoneDropped(v)) ==> NoneDropped(v)
    ensures v.ctl[s] == Answered(old(v.ctl[s]), b, ok) && v.logins == old(v.logins)
    ensures v.wr == if ok then old(v.wr)[s := WriteOp(v.gens[s], Buf(b))] else old(v.wr)
  {
    assert v.nextLogin !in v.logins;
    hide Server.Listed, Server.SettledBut, Server.SlotOk, Server.Logged, Server.Pooled, Server.Logins, Server.Queued, IsUid;
    var l := Ask(v, s);
    b := Answer(v, l, s, ok);
  }

  /** The request waits for the database thread. */
  method Enqueue(v: Server, s: int)
    requires v.Valid() && v.serverTask.None? && 0 <= s < MAX_CONNECTIONS && v.ctl[s].inuse
    requires v.ctl[s].proto == Some(Login) && v.ctl[s].udata.Null? && v.ctl[s].firstMsg && ConnId(s, v.gens[s]) !in v.home.Values
    modifies v`logins, v`nextLogin, v`home, v`place, v`dbQueue, v`serverTask
    ensures v.Valid() && v.serverTask.None?
    ensures v.dbQueue == old(v.dbQueue) + [old(v.nextLogin)] && v.logins == old(v.logins)[old(v.nextLogin) := LoginInfo(None, v.ctl[s].uid)]
    ensures old(NoneDropped(v)) ==> NoneDropped(v)
  {
    var l := Ask(v, s);
    PushDb(v, l);
  }

  /** login: on_recv_first_message. */
  method LoginFirst(v: Server, s: int, m: LoginMessage, ok: bool) returns (status: Status)
    requires v.Valid() && v.serverTask.None? && 0 <= s < MAX_CONNECTIONS && v.ctl[s].inuse
    requires v.ctl[s].proto == Some(Login) && v.ctl[s].udata.Null? && v.ctl[s].firstMsg && ConnId(s, v.gens[s]) !in v.home.Values
    modifies v`pool, v`nextBuf, v`owner, v`logins, v`nextLogin, v`wr, v`home, v`place, v`dbQueue, v`serverTask, v.ctl
    ensures v.Valid() && v.serverTask.None? && v.gens == old(v.gens) && v.rd == old(v.rd) && OthersKept(v, s)
    ensures old(NoneDropped(v)) ==> NoneDropped(v)
    ensures v.ctl[s].inuse && v.ctl[s].proto == Some(Login) && v.ctl[s].closing == old(v.ctl[s]).closing
    ensures status == Verdict(Some(Login), m) && Handled(Some(Login), old(v.ctl[s]), v.ctl[s], m, ok)
    ensures m == Malformed ==> unchanged(v) && unchanged(v.ctl)
    ensures m == Refused || m == Accepted(false) ==> v.ctl[s].udata.Buf? && (s in v.wr && v.wr[s].data == v.ctl[s].udata <==> ok)
    ensures v.logins == if m == Accepted(true) then old(v.logins)[old(v.nextLogin) := LoginInfo(None, v.ctl[s].uid)] else old(v.logins)
    ensures v.dbQueue == old(v.dbQueue) + if m == Accepted(true) then [old(v.nextLogin)] else []
  {
    hide Server.Listed, Server.Logged, Server.Pooled, Server.Logins, Server.Queued;
    if m.Malformed? {
      status := Close;
    } else if m == Accepted(true) {
      Enqueue(v, s);
      status := StopReading;
    } else {
      assert v.SlotOk(s);
      var b := Refuse(v, s, ok);
      status := Close;
    }
  }

  // ----- login: the answer has been written -----

  /** The buffer of slot `s` has been released and its connection no longer points at it. */
  twostate predicate Spent(v: Server, s: int, b: nat)
    reads v, v.ctl
  {
    && v.Sized() && 0 <= s < MAX_CONNECTIONS
    && (forall x {:trigger v.ctl[x]} :: 0 <= x < MAX_CONNECTIONS && x != s ==> v.ctl[x] == old(v.ctl[x]))
    && v.ctl[s] == old(v.ctl[s]).(udata := Null) && Released(v, b)
    && v.rd == old(v.rd) && v.wr == old(v.wr) && v.freelist == old(v.freelist) && v.free == old(v.free) && v.log == old(v.log)
    && v.nextUnused == old(v.nextUnused) && v.gens == old(v.gens) && v.nextBuf == old(v.nextBuf)
    && v.logins == old(v.logins) && v.nextLogin == old(v.nextLogin) && v.dbQueue == old(v.dbQueue) && v.dbTask == old(v.dbTask)
    && v.serverQueue == old(v.serverQueue) && v.serverTask == old(v.serverTask) && v.home == old(v.home) && v.place == old(v.place)
  }

  twostate lemma SpentTable(v: Server, new s: int, new b: nat)
    requires old(v.Valid()) && Spent(v, s, b) && old(v.ctl[s].inuse && v.ctl[s].proto == Some(Login) && v.ctl[s].udata == Buf(b) && s !in v.wr)
    ensures v.Table() && v.SettledBut(-1)
  {
    assert old(v.SlotOk(s));
    forall x | 0 <= x < MAX_CONNECTIONS ensures v.SlotOk(x) && v.Settled(x) {
      assert old(v.SlotOk(x)); assert old(v.Settled(x));
    }
    ListKept(v);
  }

  twostate lemma SpentRest(v: Server, new s: int, new b: nat)
    requires old(v.Valid()) && Spent(v, s, b) && old(v.ctl[s].inuse && v.ctl[s].proto == Some(Login) && v.ctl[s].udata == Buf(b))
    ensures v.Pooled() && v.Logged() && v.Logins()
  {
    assert old(v.SlotOk(s));
    forall x {:trigger v.Owned(x)} | x in v.owner ensures v.Owned(x) {
      assert old(v.Owned(x));
    }
    forall l {:trigger v.LoginOk(l)} | l in v.logins ensures v.LoginOk(l) {
      assert old(v.LoginOk(l));
    }
    assert forall c {:trigger v.Live(c)} :: v.Live(c) == old(v.Live(c));
  }

  /** login: on_write releases the buffer. */
  method LoginWritten(v: Server, s: int)
    requires v.Valid() && 0 <= s < MAX_CONNECTIONS && v.ctl[s].inuse && v.ctl[s].proto == Some(Login) && v.ctl[s].udata.Buf? && s !in v.wr
    modifies v`pool, v`owner, v.ctl
    ensures v.Valid() && Spent(v, s, old(v.ctl[s]).udata.b)
  {
    assert v.SlotOk(s);
    var b := v.ctl[s].udata.b;
    IdleUnlessWriting(v, b);
    ReleaseWritten(v, s, b);
    SpentTable(v, s, b);
    SpentRest(v, s, b);
  }

  method ReleaseWritten(v: Server, s: int, b: nat)
    requires v.Sized() && 0 <= s < MAX_CONNECTIONS && b in v.owner && !v.owner[b].InPool? && Idle(v, b) && |v.pool| <= MAX_IDLE_OUTBUFS
    modifies v`pool, v`owner, v.ctl
    ensures Spent(v, s, b)
  {
    Release(v, b);
    v.ctl[s] := v.ctl[s].(udata := Null);
  }

  /** echo: on_write allows the next answer. */
  method EchoWritten(v: Server, s: int)
    requires v.Valid() && 0 <= s < MAX_CONNECTIONS && v.ctl[s].inuse && v.ctl[s].proto == Some(Echo) && s !in v.wr
    modifies v.ctl
    ensures v.Valid() && OthersKept(v, s) && v.ctl[s] == old(v.ctl[s]).(udata := Handle(true))
  {
    assert v.SlotOk(s); assert v.Settled(s);
    v.ctl[s] := v.ctl[s].(udata := Handle(true));
    TunedInv(v, s, -1);
    assert v.Settled(s);
  }

  /** OUTPUT_IN_PROGRESS is cleared. */
  method ClearOutput(v: Server, s: int)
    requires v.Inv(s) && 0 <= s < MAX_CONNECTIONS && v.ctl[s].inuse && !v.ctl[s].closing && s !in v.wr
    modifies v.ctl
    ensures v.Valid() && OthersKept(v, s) && v.ctl[s] == old(v.ctl[s]).(output := false)
  {
    assert v.SlotOk(s);
    v.ctl[s] := v.ctl[s].(output := false);
    TunedInv(v, s, s);
    assert v.Settled(s);
  }
}
