/** The events of a run and what each does to the state: what the handlers and the threads are proved against. */
module ConnSpec {
  import opened Options
  import opened ConnUid
  import opened ConnLog
  import opened ConnState

  datatype Status = Ok | StopReading | Close | Abort

  /** How on_recv_first_message of the login protocol ends: rejected before a record is made, answered at once, or
      given to the database thread, whose queue may refuse. */
  datatype LoginMessage = Malformed | Refused | Accepted(queued: bool)

  datatype Event =
    | Connect(sendsFirst: bool, sendOk: bool, readOk: bool)
    | ReadLengthCompletes(slot: int, err: bool, some: bool, bodylen: nat, fails: nat)
    | ReadBodyCompletes(slot: int, err: bool, some: bool, choice: Option<Proto>, m: LoginMessage, sendOk: bool, fails: nat)
    | WriteCompletes(slot: int, err: bool, some: bool, fails: nat)
    | TimeoutsChecked
    | CloseCalled(slot: int, gen: nat)
    | DbTakes
    | DbAnswers
    | DbPosts(accepted: bool)
    | ServerTaskRuns(sendOk: bool)

  predicate Sized(a: State)
  {
    |a.ctl| == MAX_CONNECTIONS && |a.gens| == MAX_CONNECTIONS
  }

  // ----- one connection -----

  /** The user data on_assign_protocol sets up. */
  function Fresh(p: Proto): UserData
  {
    match p
    case Login => Null
    case Echo => Handle(true)
    case Game => Null
  }

  predicate Ready(u: UserData)
  {
    u.Handle? && u.outputReady
  }

  /** The protocol a message goes to; `choice` is the one that recognises the first message. */
  function Chosen(c: Conn, choice: Option<Proto>): Option<Proto>
  {
    if c.proto.Some? then c.proto else choice
  }

  /** The callbacks a received message leads to. */
  function RecvCalls(c: Conn, id: ConnId, choice: Option<Proto>): seq<Callback>
  {
    if c.proto.Some? then [Callback(id, OnRecv)]
    else if choice.Some? then [Callback(id, OnAssign), Callback(id, OnRecv)]
    else []
  }

  /** The connection as its protocol finds it when a message arrives. */
  function Spoken(c: Conn, choice: Option<Proto>): Conn
  {
    if c.proto.Some? then c.(firstMsg := true)
    else if choice.Some? then c.(proto := choice, udata := Fresh(choice.value), firstMsg := true)
    else c
  }

  /** connection_send of `data` by a connection with no output in progress; `ok` is what the system answers. */
  function Sent(c: Conn, data: UserData, ok: bool): Conn
  {
    if ok then c.(outputData := data, output := true, pending := c.pending + 1) else c.(outputData := data)
  }

  /** An echo connection after a message: the answer is sent when no earlier one is being written. */
  function Echoed(c: Conn, ok: bool): Conn
  {
    if !Ready(c.udata) then c
    else if ok then Sent(c, c.udata, true).(udata := Handle(false))
    else Sent(c, c.udata, false)
  }

  /** A login connection that has been handed the buffer with its answer. */
  function Answered(c: Conn, b: nat, ok: bool): Conn
  {
    c.(udata := Buf(b), outputData := Buf(b), output := ok, pending := c.pending + if ok then 1 else 0)
  }

  function Verdict(p: Option<Proto>, m: LoginMessage): Status
  {
    match p
    case None => Abort
    case Some(Echo) => Ok
    case Some(Game) => Close
    case Some(Login) => if m == Accepted(true) then StopReading else Close
  }

  /** What a protocol makes of a connection by handling a message, from `c` to `d`. */
  ghost predicate Handled(p: Option<Proto>, c: Conn, d: Conn, m: LoginMessage, ok: bool)
  {
    match p
    case None => d == c
    case Some(Echo) => d == Echoed(c, ok)
    case Some(Game) => d == c
    case Some(Login) => if m == Refused || m == Accepted(false) then d.udata.Buf? && d == Answered(c, d.udata.b, ok) else d == c
  }

  /** What the timeout check leaves of a connection: idle ones are told to close, the others start counting again. */
  ghost predicate Checked(now: Conn, before: Conn)
  {
    if !before.inuse then now == before
    else if before.rdwr != 0 then now == before.(rdwr := 0)
    else if before.pending != 0 then now == before.(closing := true)
    else !now.inuse && now.proto.None?
  }

  /** The record of a connection just allocated in slot `s`, whose record was `c`. */
  function Begun(c: Conn, s: int, sendsFirst: bool): Conn
    requires IsUid(c.uid) && 0 <= s <= 0xFFFF
  {
    c.(uid := NextUid(c.uid, s), inuse := true, closing := false, firstMsg := false, output := false,
       rdwr := 1, pending := 0, proto := None, udata := Service(sendsFirst))
  }

  /** A service that sends first has its protocol assigned and the challenge sent at once. */
  function Greeted(c: Conn, ok: bool): Conn
    requires c.udata.Service?
  {
    if c.udata.sendsFirst then Sent(c.(proto := Some(Game), udata := Fresh(Game)), Static, ok) else c
  }

  function GreetCalls(id: ConnId, sendsFirst: bool): seq<Callback>
  {
    if sendsFirst then [Callback(id, OnAssign), Callback(id, OnConnect)] else []
  }

  // ----- the connection in one slot -----

  /** No other connection and none of its operations is touched. */
  ghost predicate Elsewhere(a: State, b: State, s: int)
  {
    && Sized(a) && Sized(b) && 0 <= s < MAX_CONNECTIONS
    && (forall x {:trigger b.ctl[x]} :: 0 <= x < MAX_CONNECTIONS && x != s ==> b.ctl[x] == a.ctl[x])
    && b.rd - {s} == a.rd - {s} && b.wr - {s} == a.wr - {s}
  }

  ghost predicate LoginsKept(a: State, b: State)
  {
    && b.logins == a.logins && b.nextLogin == a.nextLogin
    && b.dbQueue == a.dbQueue && b.dbTask == a.dbTask && b.serverQueue == a.serverQueue && b.serverTask == a.serverTask
  }

  /** The connection whose record was `c`, after the callbacks in `log`, has been told to close: it is gone, its
      protocol notified, when no operation was pending; otherwise it is closing. */
  ghost predicate ShutIn(b: State, s: int, c: Conn, log: seq<Callback>)
  {
    Sized(b) && 0 <= s < MAX_CONNECTIONS &&
    if c.pending == 0 then
      && !b.ctl[s].inuse && b.ctl[s].proto.None? && b.freelist == s
      && b.log == log + (if c.proto.Some? then [Callback(ConnId(s, b.gens[s]), OnClose)] else [])
    else
      b.ctl[s] == c.(closing := true) && b.log == log
  }

  /** A read was started on the connection `c`, unless five attempts failed. */
  ghost predicate ReadOrShut(b: State, s: int, c: Conn, body: bool, fails: nat, log: seq<Callback>)
  {
    Sized(b) && 0 <= s < MAX_CONNECTIONS &&
    if fails < RETRIES then
      s in b.rd && b.rd[s] == ReadOp(b.gens[s], body) && b.ctl[s] == c.(pending := c.pending + 1) && b.log == log
    else
      s !in b.rd && ShutIn(b, s, c, log)
  }

  /** The slot internal_alloc would hand out. */
  function NextSlot(a: State): int
  {
    if a.freelist != NO_SLOT then a.freelist else a.nextUnused
  }

  predicate Room(a: State)
  {
    a.freelist != NO_SLOT || a.nextUnused < MAX_CONNECTIONS
  }

  /** No outstanding login record carries the identifier that the next connection will get. */
  predicate Unclaimed(a: State)
  {
    var s := NextSlot(a);
    0 <= s < |a.ctl| && s <= 0xFFFF && IsUid(a.ctl[s].uid) &&
    forall l {:trigger l in a.logins} | l in a.logins :: a.logins[l].connection != NextUid(a.ctl[s].uid, s)
  }

  /** connmgr_start_connection */
  ghost predicate Connected(a: State, b: State, sendsFirst: bool, sendOk: bool, readOk: bool)
  {
    var s := NextSlot(a);
    && Elsewhere(a, b, s) && !a.ctl[s].inuse && IsUid(a.ctl[s].uid) && b.gens == a.gens[s := a.gens[s] + 1] && LoginsKept(a, b)
    && var d := Greeted(Begun(a.ctl[s], s, sendsFirst), sendOk);
       var log := a.log + GreetCalls(ConnId(s, b.gens[s]), sendsFirst);
       && (s in b.wr <==> d.output)
       && (if readOk then s in b.rd && b.rd[s] == ReadOp(b.gens[s], false) && b.ctl[s] == d.(pending := d.pending + 1) && b.log == log
           else s !in b.rd && ShutIn(b, s, d, log))
  }

  /** internal_on_read_length: `some` says that bytes arrived, `bodylen` is the length they spell, `fails` how many
      attempts to start the next read the system refuses. */
  ghost predicate LengthRead(a: State, b: State, s: int, err: bool, some: bool, bodylen: nat, fails: nat)
  {
    && Elsewhere(a, b, s) && b.gens == a.gens && b.wr == a.wr && LoginsKept(a, b)
    && var c := a.ctl[s].(pending := a.ctl[s].pending - 1);
       if c.closing then s !in b.rd && ShutIn(b, s, c, a.log)
       else if err then ReadOrShut(b, s, c, false, fails, a.log)
       else if some && 0 < bodylen <= INPUT_BUFFER_SIZE then ReadOrShut(b, s, c.(bodylen := bodylen), true, fails, a.log)
       else s !in b.rd && ShutIn(b, s, c, a.log)
  }

  /** How a connection goes on after its protocol's answer to a message. */
  ghost predicate Proceeds(b: State, s: int, d: Conn, status: Status, fails: nat, log: seq<Callback>)
  {
    Sized(b) && 0 <= s < MAX_CONNECTIONS &&
    match status
    case Ok => ReadOrShut(b, s, d, false, fails, log)
    case StopReading => s !in b.rd && b.ctl[s] == d && b.log == log
    case Close => s !in b.rd && ShutIn(b, s, d, log)
    case Abort => s !in b.rd && ShutIn(b, s, d, log)
  }

  /** A message has arrived for the connection `c`: its protocol is selected if it has none, gets the message, and
      decides how to go on. */
  ghost predicate Received(a: State, b: State, s: int, c: Conn, choice: Option<Proto>, m: LoginMessage, ok: bool, fails: nat)
  {
    && Sized(a) && Sized(b) && 0 <= s < MAX_CONNECTIONS
    && var p := Chosen(c, choice);
    && (exists d: Conn {:trigger Handled(p, Spoken(c, choice), d, m, ok)} ::
          && Handled(p, Spoken(c, choice), d, m, ok) && (s in b.wr <==> d.output)
          && Proceeds(b, s, d, Verdict(p, m), fails, a.log + RecvCalls(c, ConnId(s, a.gens[s]), choice)))
    && b.logins == (if p == Some(Login) && m == Accepted(true) then a.logins[a.nextLogin := LoginInfo(None, c.uid)] else a.logins)
    && b.dbQueue == a.dbQueue + (if p == Some(Login) && m == Accepted(true) then [a.nextLogin] else [])
    && b.dbTask == a.dbTask && b.serverQueue == a.serverQueue && b.serverTask == a.serverTask
  }

  /** internal_on_read_body */
  ghost predicate BodyRead(a: State, b: State, s: int, err: bool, some: bool, choice: Option<Proto>, m: LoginMessage, ok: bool, fails: nat)
  {
    && Elsewhere(a, b, s) && b.gens == a.gens
    && var c := a.ctl[s].(pending := a.ctl[s].pending - 1, rdwr := a.ctl[s].rdwr + 1);
       if c.closing then s !in b.rd && b.wr == a.wr && LoginsKept(a, b) && ShutIn(b, s, c, a.log)
       else if err then b.wr == a.wr && LoginsKept(a, b) && ReadOrShut(b, s, c, true, fails, a.log)
       else if !some then s !in b.rd && b.wr == a.wr && LoginsKept(a, b) && ShutIn(b, s, c, a.log)
       else Received(a, b, s, c, choice, m, ok, fails)
  }

  /** on_write of the protocols, for the connection `c`; a login connection has released its buffer and closes. */
  ghost predicate Told(a: State, b: State, s: int, c: Conn)
  {
    && Sized(a) && Sized(b) && 0 <= s < MAX_CONNECTIONS && c.proto.Some?
    && var log := a.log + [Callback(ConnId(s, a.gens[s]), OnWrite)];
       if c.proto == Some(Login) then
         && c.udata.Buf? && ShutIn(b, s, c.(output := false, udata := Null), log)
         && b.pool == if |a.pool| < MAX_IDLE_OUTBUFS then [c.udata.b] + a.pool else a.pool
       else
         b.ctl[s] == c.(output := false, udata := Fresh(c.proto.value)) && b.log == log && b.pool == a.pool
  }

  /** internal_on_write */
  ghost predicate Written(a: State, b: State, s: int, err: bool, some: bool, fails: nat)
  {
    && Elsewhere(a, b, s) && b.gens == a.gens && b.rd == a.rd && s in a.wr && LoginsKept(a, b)
    && var c := a.ctl[s].(pending := a.ctl[s].pending - 1, rdwr := a.ctl[s].rdwr + 1);
       if c.closing then s !in b.wr && ShutIn(b, s, c, a.log)
       else if err && fails < RETRIES then b.wr == a.wr && b.ctl[s] == a.ctl[s].(rdwr := c.rdwr) && b.log == a.log
       else if err || !some then s !in b.wr && ShutIn(b, s, c, a.log)
       else s !in b.wr && Told(a, b, s, c)
  }

  // ----- the whole table, and the threads -----

  /** The callback of a timeout check of the connection `c`. */
  function SlotCalls(c: Conn, id: ConnId): seq<Callback>
  {
    if c.inuse && c.rdwr == 0 && c.pending == 0 && c.proto.Some? then [Callback(id, OnClose)] else []
  }

  /** The callbacks of a timeout check of the slots below `k`. */
  ghost function SweepCalls(a: State, k: nat): seq<Callback>
    requires Sized(a) && k <= MAX_CONNECTIONS
  {
    if k == 0 then [] else SweepCalls(a, k - 1) + SlotCalls(a.ctl[k - 1], ConnId(k - 1, a.gens[k - 1]))
  }

  /** connmgr_timeout_check */
  ghost predicate Swept(a: State, b: State)
  {
    && Sized(a) && Sized(b) && 0 <= a.nextUnused <= MAX_CONNECTIONS
    && b.gens == a.gens && b.rd == a.rd && b.wr == a.wr && LoginsKept(a, b)
    && (forall x {:trigger b.ctl[x]} :: 0 <= x < MAX_CONNECTIONS ==> Checked(b.ctl[x], a.ctl[x]))
    && b.log == a.log + SweepCalls(a, a.nextUnused)
  }

  /** connection_close and connection_abort, on an identifier handed out for the `g`-th connection of slot `s`. */
  ghost predicate ClosedByUid(a: State, b: State, s: int, g: nat)
  {
    && Sized(a) && Sized(b) && 0 <= s < MAX_CONNECTIONS
    && if a.ctl[s].inuse && SameTurn(a.gens[s], g) then
         && Elsewhere(a, b, s) && b.gens == a.gens && b.rd == a.rd && b.wr == a.wr && LoginsKept(a, b)
         && ShutIn(b, s, a.ctl[s], a.log)
       else
         b == a
  }

  /** The server thread's oldest task. */
  ghost predicate Resolved(a: State, b: State, ok: bool)
  {
    a.serverQueue != [] && b.serverQueue == a.serverQueue[1..] && Settles(a, b, a.serverQueue[0], ok)
  }

  /** The answer in a record goes to the connection that waits for it, sent or not, or its buffer is released. */
  ghost predicate Settles(a: State, b: State, l: nat, ok: bool)
  {
    && Sized(a) && l in a.logins && a.logins[l].output.Some?
    && var s := Lo(a.logins[l].connection);
       var k := a.logins[l].output.value;
       && 0 <= s < MAX_CONNECTIONS
       && b.serverTask.None? && b.logins == a.logins - {l}
       && b.dbQueue == a.dbQueue && b.dbTask == a.dbTask && b.gens == a.gens && b.rd == a.rd && b.log == a.log
       && if a.ctl[s].uid == a.logins[l].connection then
            && a.ctl[s].inuse && !a.ctl[s].closing && a.ctl[s].pending == 0 && s !in a.wr
            && b.ctl == a.ctl[s := Answered(a.ctl[s], k, ok)] && b.pool == a.pool
            && b.wr == if ok then a.wr[s := WriteOp(a.gens[s], Buf(k))] else a.wr
          else
            && b.ctl == a.ctl && b.wr == a.wr
            && b.pool == if |a.pool| < MAX_IDLE_OUTBUFS then [k] + a.pool else a.pool
  }

  /** The database thread builds its answer in a buffer from the pool, or a new one. */
  ghost predicate AnswerBuilt(a: State, b: State)
  {
    && a.dbTask.Some? && a.dbTask.value in a.logins
    && var l := a.dbTask.value;
       if a.pool != [] then
         b == a.(pool := a.pool[1..], logins := a.logins[l := a.logins[l].(output := Some(a.pool[0]))])
       else
         b == a.(nextBuf := a.nextBuf + 1, logins := a.logins[l := a.logins[l].(output := Some(a.nextBuf))])
  }

  // ----- runs -----

  /** Whether the environment can let `e` happen. */
  predicate Possible(a: State, e: Event)
  {
    match e
    case Connect(_, _, _) => Room(a) && Unclaimed(a)
    case ReadLengthCompletes(s, _, _, _, _) => s in a.rd && !a.rd[s].body
    case ReadBodyCompletes(s, _, _, choice, _, _, _) => s in a.rd && a.rd[s].body && choice != Some(Game)
    case WriteCompletes(s, _, _, _) => s in a.wr
    case TimeoutsChecked => true
    case CloseCalled(s, g) => 0 <= s < MAX_CONNECTIONS && s < |a.gens| && 0 < g <= a.gens[s]
    case DbTakes => a.dbQueue != [] && a.dbTask.None?
    case DbAnswers => a.dbTask.Some? && a.dbTask.value in a.logins && a.logins[a.dbTask.value].output.None?
    case DbPosts(_) => a.dbTask.Some? && a.dbTask.value in a.logins && a.logins[a.dbTask.value].output.Some?
    case ServerTaskRuns(_) => a.serverQueue != []
  }

  /** The event `e` takes the server from `a` to `b`. */
  ghost predicate Leads(a: State, e: Event, b: State)
  {
    match e
    case Connect(sendsFirst, sendOk, readOk) => Connected(a, b, sendsFirst, sendOk, readOk)
    case ReadLengthCompletes(s, err, some, bodylen, fails) => LengthRead(a, b, s, err, some, bodylen, fails)
    case ReadBodyCompletes(s, err, some, choice, m, ok, fails) => BodyRead(a, b, s, err, some, choice, m, ok, fails)
    case WriteCompletes(s, err, some, fails) => Written(a, b, s, err, some, fails)
    case TimeoutsChecked => Swept(a, b)
    case CloseCalled(s, g) => ClosedByUid(a, b, s, g)
    case DbTakes => a.dbQueue != [] && b == a.(dbQueue := a.dbQueue[1..], dbTask := Some(a.dbQueue[0]))
    case DbAnswers => AnswerBuilt(a, b)
    case DbPosts(accepted) => a.dbTask.Some? && b == a.(dbTask := None, serverQueue := a.serverQueue + if accepted then [a.dbTask.value] else [])
    case ServerTaskRuns(ok) => Resolved(a, b, ok)
  }

  /** An event that is not possible where it stands in a list does not happen. */
  ghost predicate Took(a: State, e: Event, b: State)
  {
    if Possible(a, e) then Leads(a, e, b) else b == a
  }

  /** The states that the first events of a list lead through. */
  ghost predicate Steps(trace: seq<State>, events: seq<Event>)
  {
    && 1 <= |trace| <= |events| + 1
    && forall i {:trigger events[i]} :: 0 <= i < |trace| - 1 ==> Took(trace[i], events[i], trace[i + 1])
  }

  /** The pending work of a connection is the number of its operations in flight, and a closing one has some left. */
  ghost predicate Counted(a: State, s: int)
    requires Sized(a) && 0 <= s < MAX_CONNECTIONS
  {
    && (a.ctl[s].inuse ==> a.ctl[s].pending == (if s in a.rd then 1 else 0) + (if s in a.wr then 1 else 0))
    && (a.ctl[s].inuse && a.ctl[s].closing ==> a.ctl[s].pending > 0)
    && (!a.ctl[s].inuse ==> s !in a.rd && s !in a.wr)
    && (a.ctl[s].inuse ==> a.ctl[s].uid == UidOf(s, a.gens[s]))
    && (a.ctl[s].inuse && a.ctl[s].proto.None? ==> s !in a.wr && !a.ctl[s].output)
    && (s in a.wr ==> a.wr[s] == WriteOp(a.gens[s], a.ctl[s].outputData))
  }

  /** Every login record has its own number, from those given out, and its own connection. */
  ghost predicate Recorded(a: State)
  {
    && (forall l {:trigger l in a.logins} :: l in a.logins ==> l < a.nextLogin)
    && (forall l, m {:trigger a.logins[l], a.logins[m]} ::
          l in a.logins && m in a.logins && a.logins[l].connection == a.logins[m].connection ==> l == m)
  }

  ghost predicate Sound(a: State)
  {
    Sized(a) && Recorded(a) && forall s {:trigger a.ctl[s]} :: 0 <= s < MAX_CONNECTIONS ==> Counted(a, s)
  }

  /** The states of a run from the empty server that has come to the state `now`. */
  ghost predicate Traced(trace: seq<State>, events: seq<Event>, now: State)
  {
    && Steps(trace, events) && trace[0] == Empty() && trace[|trace| - 1] == now
    && forall k {:trigger trace[k]} :: 0 <= k < |trace| ==> Sound(trace[k])
  }

  lemma TracedOn(trace: seq<State>, events: seq<Event>, a: State, b: State)
    requires Traced(trace, events, a) && |trace| <= |events| && Took(a, events[|trace| - 1], b) && Sound(b)
    ensures Traced(trace + [b], events, b)
  {
  }
}
