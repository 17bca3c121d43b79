/** The completion handlers, new connections and the timeout check. */
module ConnEvents {
  import opened Options
  import opened ConnUid
  import opened ConnLog
  import opened ConnState
  import opened ConnSpec
  import opened ConnTable
  import opened ConnIo
  import opened LoginRecords
  import opened ConnProtocol

  twostate lemma OthersElsewhere(v: Server, new s: int)
    requires old(v.Valid()) && v.Valid() && 0 <= s < MAX_CONNECTIONS && OthersKept(v, s)
    ensures Elsewhere(old(v.Current()), v.Current(), s)
  {
  }

  /** Nothing but slot `s` and the buffers has changed. */
  twostate predicate Bystanders(v: Server, s: int)
    reads v, v.ctl
  {
    && OthersKept(v, s) && v.gens == old(v.gens) && v.logins == old(v.logins) && v.nextLogin == old(v.nextLogin)
    && v.dbQueue == old(v.dbQueue) && v.dbTask == old(v.dbTask) && v.serverQueue == old(v.serverQueue) && v.serverTask == old(v.serverTask)
  }

  /** The record of slot `s` once an operation has completed; `counted` says whether it counts as a read or a write. */
  twostate function Completed(v: Server, s: int, counted: bool): Conn
    requires 0 <= s < v.ctl.Length
  {
    old(v.ctl[s]).(pending := old(v.ctl[s]).pending - 1, rdwr := old(v.ctl[s]).rdwr + if counted then 1 else 0)
  }

  lemma ReadCurrent(v: Server, s: int, c: Conn, body: bool, fails: nat, log: seq<Callback>)
    requires v.Valid() && 0 <= s < MAX_CONNECTIONS
    requires fails < RETRIES ==> v.log == log && v.ctl[s] == c.(pending := c.pending + 1) && s in v.rd && v.rd[s] == ReadOp(v.gens[s], body)
    requires fails >= RETRIES ==> s !in v.rd && Shut(v, s, c, log)
    ensures ReadOrShut(v.Current(), s, c, body, fails, log)
  {
  }

  /** No record was ever made for a connection that has not reached the login protocol. */
  lemma NoRecordYet(v: Server, s: int)
    requires v.Valid() && 0 <= s < MAX_CONNECTIONS && v.ctl[s].inuse && v.ctl[s].proto != Some(Login)
    ensures ConnId(s, v.gens[s]) !in v.home.Values
  {
    if ConnId(s, v.gens[s]) in v.home.Values {
      var l :| l in v.home && v.home[l] == ConnId(s, v.gens[s]);
      assert v.LoginOk(l);
      assert v.Live(v.home[l]);
    }
  }

  /** on_recv_first_message and on_recv_message of the protocols. */
  method Recv(v: Server, s: int, m: LoginMessage, ok: bool) returns (status: Status)
    requires v.Valid() && v.serverTask.None? && 0 <= s < MAX_CONNECTIONS && v.ctl[s].inuse && !v.ctl[s].closing && v.ctl[s].proto.Some? && v.ctl[s].firstMsg
    requires v.ctl[s].proto == Some(Login) ==> v.ctl[s].udata.Null? && ConnId(s, v.gens[s]) !in v.home.Values
    modifies v`pool, v`nextBuf, v`owner, v`logins, v`nextLogin, v`wr, v`home, v`place, v`dbQueue, v`serverTask, v.ctl
    ensures v.Valid() && v.serverTask.None? && v.gens == old(v.gens) && v.rd == old(v.rd) && OthersKept(v, s)
    ensures old(NoneDropped(v)) ==> NoneDropped(v)
    ensures v.ctl[s].inuse && !v.ctl[s].closing && v.ctl[s].proto == old(v.ctl[s]).proto
    ensures status == Verdict(v.ctl[s].proto, m) && Handled(v.ctl[s].proto, old(v.ctl[s]), v.ctl[s], m, ok)
    ensures v.logins == if v.ctl[s].proto == Some(Login) && m == Accepted(true) then old(v.logins)[old(v.nextLogin) := LoginInfo(None, v.ctl[s].uid)] else old(v.logins)
    ensures v.dbQueue == old(v.dbQueue) + if v.ctl[s].proto == Some(Login) && m == Accepted(true) then [old(v.nextLogin)] else []
  {
    match v.ctl[s].proto.value {
      case Login =>
        status := LoginFirst(v, s, m, ok);
      case Echo =>
        EchoRecv(v, s, ok);
        status := Ok;
      case Game =>
        status := Close;
    }
  }

  /** The message goes to the protocol the connection has. */
  method RunRecv(v: Server, s: int, m: LoginMessage, ok: bool) returns (status: Status)
    requires v.Valid() && v.serverTask.None? && 0 <= s < MAX_CONNECTIONS && v.ctl[s].inuse && !v.ctl[s].closing && v.ctl[s].proto.Some?
    requires v.ctl[s].proto == Some(Login) ==> v.ctl[s].udata.Null? && ConnId(s, v.gens[s]) !in v.home.Values
    modifies v, v.ctl
    ensures v.Valid() && v.serverTask.None? && v.gens == old(v.gens) && v.rd == old(v.rd) && OthersKept(v, s)
    ensures old(NoneDropped(v)) ==> NoneDropped(v)
    ensures v.ctl[s].inuse && !v.ctl[s].closing && v.ctl[s].proto == old(v.ctl[s]).proto
    ensures v.log == old(v.log) + [Callback(ConnId(s, v.gens[s]), OnRecv)]
    ensures status == Verdict(v.ctl[s].proto, m) && Handled(v.ctl[s].proto, old(v.ctl[s]).(firstMsg := true), v.ctl[s], m, ok)
    ensures v.logins == if v.ctl[s].proto == Some(Login) && m == Accepted(true) then old(v.logins)[old(v.nextLogin) := LoginInfo(None, v.ctl[s].uid)] else old(v.logins)
    ensures v.dbTask == old(v.dbTask) && v.serverQueue == old(v.serverQueue)
    ensures v.dbQueue == old(v.dbQueue) + if v.ctl[s].proto == Some(Login) && m == Accepted(true) then [old(v.nextLogin)] else []
  {
    hide Server.Listed, Server.Logged, Server.Pooled, Server.Logins, Server.Queued;
    Note(v, s, OnRecv, true, -1);
    status := Recv(v, s, m, ok);
  }

  /** internal_dispatch_on_recv_message; `choice` is the protocol that recognises the first message. */
  method DispatchRecv(v: Server, s: int, choice: Option<Proto>, m: LoginMessage, ok: bool) returns (status: Status)
    requires v.Valid() && v.serverTask.None? && 0 <= s < MAX_CONNECTIONS && v.ctl[s].inuse && !v.ctl[s].closing && s !in v.rd
    requires v.ctl[s].proto != Some(Login) && choice != Some(Game)
    modifies v, v.ctl
    ensures v.Valid() && v.serverTask.None? && v.gens == old(v.gens) && s !in v.rd && OthersKept(v, s)
    ensures old(NoneDropped(v)) ==> NoneDropped(v)
    ensures v.ctl[s].inuse && !v.ctl[s].closing && v.ctl[s].proto == Chosen(old(v.ctl[s]), choice)
    ensures v.log == old(v.log) + RecvCalls(old(v.ctl[s]), ConnId(s, v.gens[s]), choice)
    ensures status == Verdict(v.ctl[s].proto, m) && Handled(v.ctl[s].proto, Spoken(old(v.ctl[s]), choice), v.ctl[s], m, ok)
    ensures v.logins == if v.ctl[s].proto == Some(Login) && m == Accepted(true) then old(v.logins)[old(v.nextLogin) := LoginInfo(None, v.ctl[s].uid)] else old(v.logins)
    ensures v.dbTask == old(v.dbTask) && v.serverQueue == old(v.serverQueue)
    ensures v.dbQueue == old(v.dbQueue) + if v.ctl[s].proto == Some(Login) && m == Accepted(true) then [old(v.nextLogin)] else []
  {
    hide Server.Listed, Server.Logged, Server.Pooled, Server.Logins, Server.Queued;
    NoRecordYet(v, s);
    assert v.SlotOk(s);
    if v.ctl[s].proto.None? {
      if choice.None? {
        return Abort;
      }
      Assign(v, s, choice.value);
    }
    status := RunRecv(v, s, m, ok);
  }

  // ----- completions -----

  /** The length has arrived: the body is read next, unless the peer is gone or the length is out of bounds. */
  method LengthArrived(v: Server, s: int, some: bool, bodylen: nat, fails: nat)
    requires v.Valid() && 0 <= s < MAX_CONNECTIONS && v.ctl[s].inuse && s !in v.rd && v.ctl[s].proto != Some(Login)
    modifies v`rd, v`pool, v`owner, v`log, v`freelist, v`free, v.ctl
    ensures v.Valid() && OthersKept(v, s)
    ensures s in v.rd <==> fails < RETRIES && some && 0 < bodylen <= INPUT_BUFFER_SIZE
    ensures s in v.rd ==> v.rd[s] == ReadOp(v.gens[s], true) && v.log == old(v.log) && v.ctl[s] == old(v.ctl[s]).(pending := old(v.ctl[s]).pending + 1, bodylen := bodylen)
    ensures s !in v.rd ==> Shut(v, s, if some && 0 < bodylen <= INPUT_BUFFER_SIZE then old(v.ctl[s]).(bodylen := bodylen) else old(v.ctl[s]), old(v.log))
  {
    hide Server.Listed, Server.Logged, Server.Pooled, Server.Logins, Server.Queued;
    if !some {
      StartClose(v, s);
      return;
    }
    if bodylen > INPUT_BUFFER_SIZE || bodylen == 0 {
      StartClose(v, s);
      return;
    }
    SetBodylen(v, s, bodylen);
    AsyncRead(v, s, true, fails);
  }

  twostate lemma LengthShut(v: Server, new s: int, new err: bool, new some: bool, new bodylen: nat, new fails: nat)
    requires old(v.Valid()) && v.Valid() && 0 <= s < MAX_CONNECTIONS && v.wr == old(v.wr) && Bystanders(v, s)
    requires Completed(v, s, false).closing || (!err && !(some && 0 < bodylen <= INPUT_BUFFER_SIZE))
    requires s !in v.rd && Shut(v, s, Completed(v, s, false), old(v.log))
    ensures LengthRead(old(v.Current()), v.Current(), s, err, some, bodylen, fails)
  {
    hide Server.Listed, Server.Logged, Server.Pooled, Server.Logins, Server.Queued;
    OthersElsewhere(v, s);
  }

  twostate lemma LengthNext(v: Server, new s: int, new err: bool, new some: bool, new bodylen: nat, new fails: nat)
    requires old(v.Valid()) && v.Valid() && 0 <= s < MAX_CONNECTIONS && v.wr == old(v.wr) && Bystanders(v, s)
    requires !Completed(v, s, false).closing && (err || (some && 0 < bodylen <= INPUT_BUFFER_SIZE))
    requires ReadOrShut(v.Current(), s, if err then Completed(v, s, false) else Completed(v, s, false).(bodylen := bodylen), !err, fails, old(v.log))
    ensures LengthRead(old(v.Current()), v.Current(), s, err, some, bodylen, fails)
  {
    hide Server.Listed, Server.Logged, Server.Pooled, Server.Logins, Server.Queued;
    OthersElsewhere(v, s);
  }

  /** internal_on_read_length */
  method ReadLengthDone(v: Server, s: int, err: bool, some: bool, bodylen: nat, fails: nat)
    requires v.Valid() && s in v.rd && !v.rd[s].body
    modifies v`rd, v`pool, v`owner, v`log, v`freelist, v`free, v.ctl
    ensures v.Valid() && LengthRead(old(v.Current()), v.Current(), s, err, some, bodylen, fails)
  {
    hide Server.Listed, Server.Logged, Server.Pooled, Server.Logins, Server.Queued, Shut, ReadOrShut, LengthRead;
    ReadCompleted(v, s);
    ghost var c := v.ctl[s];
    if v.ctl[s].closing {
      FinishClosing(v, s);
      LengthShut(v, s, err, some, bodylen, fails);
    } else if err {
      AsyncRead(v, s, false, fails);
      ReadCurrent(v, s, c, false, fails, old(v.log));
      LengthNext(v, s, err, some, bodylen, fails);
    } else {
      LengthArrived(v, s, some, bodylen, fails);
      if some && 0 < bodylen <= INPUT_BUFFER_SIZE {
        ReadCurrent(v, s, c.(bodylen := bodylen), true, fails, old(v.log));
        LengthNext(v, s, err, some, bodylen, fails);
      } else {
        LengthShut(v, s, err, some, bodylen, fails);
      }
    }
  }

  /** The protocol's answer to a message says how the connection goes on. */
  method Proceed(v: Server, s: int, status: Status, fails: nat)
    requires v.Valid() && 0 <= s < MAX_CONNECTIONS && v.ctl[s].inuse && !v.ctl[s].closing && s !in v.rd
    requires status == Ok ==> v.ctl[s].proto == Some(Echo)
    modifies v`rd, v`pool, v`owner, v`log, v`freelist, v`free, v.ctl
    ensures v.Valid() && OthersKept(v, s)
    ensures Proceeds(v.Current(), s, old(v.ctl[s]), status, fails, old(v.log))
  {
    match status {
      case Ok =>
        AsyncRead(v, s, false, fails);
      case StopReading =>
      case Close =>
        StartClose(v, s);
      case Abort =>
        StartClose(v, s);
    }
  }

  /** The body has arrived: it goes to the protocol. */
  method BodyArrived(v: Server, s: int, choice: Option<Proto>, m: LoginMessage, ok: bool, fails: nat)
    requires v.Valid() && v.serverTask.None? && 0 <= s < MAX_CONNECTIONS && v.ctl[s].inuse && !v.ctl[s].closing && s !in v.rd
    requires v.ctl[s].proto != Some(Login) && choice != Some(Game)
    modifies v, v.ctl
    ensures v.Valid() && v.serverTask.None? && OthersKept(v, s)
    ensures old(NoneDropped(v)) ==> NoneDropped(v)
    ensures v.gens == old(v.gens)
    ensures Received(old(v.Current()), v.Current(), s, old(v.ctl[s]), choice, m, ok, fails)
  {
    hide Server.Listed, Server.Logged, Server.Pooled, Server.Logins, Server.Queued;
    var status := DispatchRecv(v, s, choice, m, ok);
    assert v.SlotOk(s) && v.Settled(s);
    ghost var d := v.ctl[s];
    Proceed(v, s, status, fails);
    assert Handled(Chosen(old(v.ctl[s]), choice), Spoken(old(v.ctl[s]), choice), d, m, ok);
  }

  twostate lemma BodyShut(v: Server, new s: int, new err: bool, new some: bool, new choice: Option<Proto>, new m: LoginMessage, new ok: bool, new fails: nat)
    requires old(v.Valid()) && v.Valid() && 0 <= s < MAX_CONNECTIONS && v.wr == old(v.wr) && Bystanders(v, s)
    requires Completed(v, s, true).closing || (!err && !some)
    requires s !in v.rd && Shut(v, s, Completed(v, s, true), old(v.log))
    ensures BodyRead(old(v.Current()), v.Current(), s, err, some, choice, m, ok, fails)
  {
    hide Received, Server.Listed, Server.Logged, Server.Pooled, Server.Logins, Server.Queued;
    OthersElsewhere(v, s);
  }

  twostate lemma BodyAgain(v: Server, new s: int, new some: bool, new choice: Option<Proto>, new m: LoginMessage, new ok: bool, new fails: nat)
    requires old(v.Valid()) && v.Valid() && 0 <= s < MAX_CONNECTIONS && v.wr == old(v.wr) && Bystanders(v, s)
    requires !Completed(v, s, true).closing && ReadOrShut(v.Current(), s, Completed(v, s, true), true, fails, old(v.log))
    ensures BodyRead(old(v.Current()), v.Current(), s, true, some, choice, m, ok, fails)
  {
    hide Received, Server.Listed, Server.Logged, Server.Pooled, Server.Logins, Server.Queued;
    OthersElsewhere(v, s);
  }

  /** Only the callbacks, the records and the allocation counters of the state before matter to a message. */
  lemma ReceivedAfter(a: State, from: State, b: State, s: int, c: Conn, choice: Option<Proto>, m: LoginMessage, ok: bool, fails: nat)
    requires Sized(a) && Received(from, b, s, c, choice, m, ok, fails)
    requires a.log == from.log && a.gens == from.gens && a.logins == from.logins && a.nextLogin == from.nextLogin && a.dbQueue == from.dbQueue
    requires a.dbTask == from.dbTask && a.serverQueue == from.serverQueue && a.serverTask == from.serverTask
    ensures Received(a, b, s, c, choice, m, ok, fails)
  {
  }

  twostate lemma BodyReceived(v: Server, new s: int, new from: State, new choice: Option<Proto>, new m: LoginMessage, new ok: bool, new fails: nat)
    requires old(v.Valid()) && v.Valid() && 0 <= s < MAX_CONNECTIONS && v.gens == old(v.gens) && OthersKept(v, s)
    requires !Completed(v, s, true).closing && Received(from, v.Current(), s, Completed(v, s, true), choice, m, ok, fails)
    requires from.log == old(v.log) && from.gens == old(v.gens) && from.logins == old(v.logins) && from.nextLogin == old(v.nextLogin) && from.dbQueue == old(v.dbQueue)
    requires from.dbTask == old(v.dbTask) && from.serverQueue == old(v.serverQueue) && from.serverTask == old(v.serverTask)
    ensures BodyRead(old(v.Current()), v.Current(), s, false, true, choice, m, ok, fails)
  {
    hide Received;
    OthersElsewhere(v, s);
    ReceivedAfter(old(v.Current()), from, v.Current(), s, Completed(v, s, true), choice, m, ok, fails);
  }

  /** internal_on_read_body */
  method ReadBodyDone(v: Server, s: int, err: bool, some: bool, choice: Option<Proto>, m: LoginMessage, ok: bool, fails: nat)
    requires v.Valid() && v.serverTask.None? && s in v.rd && v.rd[s].body && choice != Some(Game)
    modifies v, v.ctl
    ensures v.Valid() && v.serverTask.None?
    ensures old(NoneDropped(v)) ==> NoneDropped(v)
    ensures BodyRead(old(v.Current()), v.Current(), s, err, some, choice, m, ok, fails)
  {
    hide Server.Listed, Server.Logged, Server.Pooled, Server.Logins, Server.Queued, Received, ReadOrShut, Shut, BodyRead;
    ReadCompleted(v, s);
    ghost var c := v.ctl[s];
    if v.ctl[s].closing {
      FinishClosing(v, s);
      BodyShut(v, s, err, some, choice, m, ok, fails);
    } else if err {
      AsyncRead(v, s, true, fails);
      ReadCurrent(v, s, c, true, fails, old(v.log));
      BodyAgain(v, s, some, choice, m, ok, fails);
    } else if !some {
      StartClose(v, s);
      BodyShut(v, s, err, some, choice, m, ok, fails);
    } else {
      ghost var from := v.Current();
      BodyArrived(v, s, choice, m, ok, fails);
      BodyReceived(v, s, from, choice, m, ok, fails);
    }
  }

  /** on_write of the protocols. */
  method DispatchWrite(v: Server, s: int) returns (status: Status)
    requires v.Valid() && 0 <= s < MAX_CONNECTIONS && v.ctl[s].inuse && !v.ctl[s].closing && v.ctl[s].proto.Some? && s !in v.wr
    requires v.ctl[s].proto == Some(Login) ==> v.ctl[s].udata.Buf?
    modifies v`pool, v`owner, v`log, v.ctl
    ensures v.Valid() && OthersKept(v, s)
    ensures v.log == old(v.log) + [Callback(ConnId(s, v.gens[s]), OnWrite)]
    ensures v.ctl[s] == old(v.ctl[s]).(udata := Fresh(old(v.ctl[s]).proto.value))
    ensures status == if v.ctl[s].proto == Some(Login) then Close else Ok
    ensures if v.ctl[s].proto == Some(Login) then Released(v, old(v.ctl[s]).udata.b) else v.pool == old(v.pool) && v.owner == old(v.owner)
  {
    assert v.SlotOk(s);
    Note(v, s, OnWrite, v.ctl[s].firstMsg, -1);
    match v.ctl[s].proto.value {
      case Login =>
        LoginWritten(v, s);
        status := Close;
      case Echo =>
        EchoWritten(v, s);
        status := Ok;
      case Game =>
        status := Ok;
    }
  }

  /** The write is done: the protocol is told. */
  method WriteArrived(v: Server, s: int)
    requires v.Inv(s) && 0 <= s < MAX_CONNECTIONS && v.ctl[s].inuse && !v.ctl[s].closing && v.ctl[s].proto.Some? && s !in v.wr
    requires v.ctl[s].proto == Some(Login) ==> v.ctl[s].udata.Buf?
    modifies v`pool, v`owner, v`log, v`freelist, v`free, v.ctl
    ensures v.Valid() && OthersKept(v, s)
    ensures Told(old(v.Current()), v.Current(), s, old(v.ctl[s]))
    ensures old(v.ctl[s]).proto == Some(Login) ==> Released(v, old(v.ctl[s]).udata.b)
  {
    hide Server.Listed, Server.Logged, Server.Pooled, Server.Logins, Server.Queued;
    ClearOutput(v, s);
    var status := DispatchWrite(v, s);
    if status == Close {
      StartClose(v, s);
    }
  }

  lemma BackInFlight(before: map<int, WriteOp>, now: map<int, WriteOp>, s: int)
    requires s in before && s in now && now[s] == before[s] && now - {s} == before - {s}
    ensures now == before
  {
    assert before == (before - {s})[s := before[s]];
    assert now == (now - {s})[s := now[s]];
  }

  twostate lemma WrittenShut(v: Server, new s: int, new err: bool, new some: bool, new fails: nat)
    requires old(v.Valid()) && v.Valid() && 0 <= s < MAX_CONNECTIONS && s in old(v.wr) && v.rd == old(v.rd) && Bystanders(v, s)
    requires Completed(v, s, true).closing || (err && fails >= RETRIES) || (!err && !some)
    requires s !in v.wr && Shut(v, s, Completed(v, s, true), old(v.log))
    ensures Written(old(v.Current()), v.Current(), s, err, some, fails)
  {
    OthersElsewhere(v, s);
  }

  twostate lemma WrittenAgain(v: Server, new s: int, new some: bool, new fails: nat)
    requires old(v.Valid()) && v.Valid() && 0 <= s < MAX_CONNECTIONS && s in old(v.wr) && v.rd == old(v.rd) && Bystanders(v, s)
    requires !Completed(v, s, true).closing && fails < RETRIES
    requires s in v.wr && v.wr[s] == old(v.wr)[s] && v.ctl[s] == old(v.ctl[s]).(rdwr := old(v.ctl[s]).rdwr + 1) && v.log == old(v.log)
    ensures Written(old(v.Current()), v.Current(), s, true, some, fails)
  {
    OthersElsewhere(v, s);
    BackInFlight(old(v.wr), v.wr, s);
  }

  twostate lemma WrittenTold(v: Server, new s: int, new m: State, new fails: nat)
    requires old(v.Valid()) && v.Valid() && 0 <= s < MAX_CONNECTIONS && s in old(v.wr) && v.rd == old(v.rd) && Bystanders(v, s)
    requires !Completed(v, s, true).closing && s !in v.wr && Told(m, v.Current(), s, Completed(v, s, true))
    requires Sized(m) && m.log == old(v.log) && m.gens == old(v.gens) && m.pool == old(v.pool)
    ensures Written(old(v.Current()), v.Current(), s, false, true, fails)
  {
    OthersElsewhere(v, s);
  }

  /** internal_on_write */
  method WriteDone(v: Server, s: int, err: bool, some: bool, fails: nat)
    requires v.Valid() && s in v.wr
    modifies v`wr, v`pool, v`owner, v`log, v`freelist, v`free, v.ctl
    ensures v.Valid() && Written(old(v.Current()), v.Current(), s, err, some, fails)
  {
    hide Server.Listed, Server.Logged, Server.Pooled, Server.Logins, Server.Queued, Told, Shut, Written;
    WriteCompleted(v, s);
    if v.ctl[s].closing {
      FinishClosing(v, s);
      WrittenShut(v, s, err, some, fails);
    } else if err {
      AsyncWrite(v, s, fails);
      if fails < RETRIES {
        WrittenAgain(v, s, some, fails);
      } else {
        WrittenShut(v, s, err, some, fails);
      }
    } else if !some {
      StartClose(v, s);
      WrittenShut(v, s, err, some, fails);
    } else {
      ghost var before := v.Current();
      WriteArrived(v, s);
      WrittenTold(v, s, before, fails);
    }
  }
}
