/** The connection table, the login records and the output buffers, and what holds of them between steps. */
module ConnState {
  import opened Options
  import opened ConnUid
  import opened ConnLog

  /** The protocols of this server; `proto` points at one of their tables. */
  datatype Proto = Login | Echo | Game

  /** What a connection's user data pointer refers to. */
  datatype UserData =
    | Null
    | Service(sendsFirst: bool)
    | Buf(b: nat)
    | Handle(outputReady: bool)
    | Static

  /** `struct conn_ctl`, its flag bits spelt out. */
  datatype Conn = Conn(
    uid: int,
    inuse: bool, closing: bool, firstMsg: bool, output: bool,
    rdwr: int, pending: int,
    proto: Option<Proto>, udata: UserData,
    bodylen: int, outputData: UserData)

  /** A read, of a message's length or of its body, that the system is carrying out for the `gen`-th connection of a slot. */
  datatype ReadOp = ReadOp(gen: nat, body: bool)

  /** A write of `data` that the system is carrying out for the `gen`-th connection of a slot. */
  datatype WriteOp = WriteOp(gen: nat, data: UserData)

  /** `struct login_info`, without the texts and the key. */
  datatype LoginInfo = LoginInfo(output: Option<nat>, connection: int)

  /** Who has to release an output buffer. */
  datatype Owner = ByLogin(l: nat) | ByConn(slot: int) | InPool

  /** Where a login record is: in a queue, in the hands of a thread, or `Dropped` after the server task queue refused it. */
  datatype Place = InDb | AtDb | InServer | AtServer | Dropped

  const MAX_IDLE_OUTBUFS := 2048
  const RETRIES := 5
  const INPUT_BUFFER_SIZE := 1024

  /** The fields of the server, as a value. */
  datatype State = State(
    ctl: seq<Conn>, gens: seq<nat>, freelist: int, nextUnused: int,
    rd: map<int, ReadOp>, wr: map<int, WriteOp>, log: seq<Callback>,
    pool: seq<nat>, nextBuf: nat, logins: map<nat, LoginInfo>, nextLogin: nat,
    dbQueue: seq<nat>, dbTask: Option<nat>, serverQueue: seq<nat>, serverTask: Option<nat>)

  function Empty(): State
  {
    State(seq(MAX_CONNECTIONS, _ => Conn(0, false, false, false, false, 0, 0, None, Null, 0, Null)), seq(MAX_CONNECTIONS, _ => 0), NO_SLOT, 0,
          map[], map[], [], [], 0, map[], 0, [], None, [], None)
  }

  class Server {
    // iocp_connmgr.c
    const ctl: array<Conn>
    var freelist: int
    var nextUnused: int
    ghost var free: seq<int>
    var gens: seq<nat>
    var rd: map<int, ReadOp>
    var wr: map<int, WriteOp>
    /** The callbacks made so far. */
    var log: seq<Callback>
    // outbuf.c
    var pool: seq<nat>
    var nextBuf: nat
    ghost var owner: map<nat, Owner>
    // protocol_login.c and its task queues
    var logins: map<nat, LoginInfo>
    var nextLogin: nat
    var dbQueue: seq<nat>
    var dbTask: Option<nat>
    var serverQueue: seq<nat>
    var serverTask: Option<nat>
    ghost var home: map<nat, ConnId>
    ghost var place: map<nat, Place>

    constructor ()
      ensures Valid() && fresh(ctl)
      ensures owner == map[] && Current() == Empty()
    {
      ctl := new Conn[MAX_CONNECTIONS](_ => Conn(0, false, false, false, false, 0, 0, None, Null, 0, Null));
      freelist, nextUnused := NO_SLOT, 0;
      free, gens, rd, wr, log := [], seq(MAX_CONNECTIONS, _ => 0), map[], map[], [];
      pool, nextBuf, owner := [], 0, map[];
      logins, nextLogin, dbQueue, dbTask, serverQueue, serverTask := map[], 0, [], None, [], None;
      home, place := map[], map[];
    }

    function Current(): State
      reads this, ctl
    {
      State(ctl[..], gens, freelist, nextUnused, rd, wr, log, pool, nextBuf, logins, nextLogin, dbQueue, dbTask, serverQueue, serverTask)
    }

    // ----- the table -----

    ghost predicate Sized()
      reads this`nextUnused, this`gens
    {
      ctl.Length == MAX_CONNECTIONS && |gens| == MAX_CONNECTIONS && 0 <= nextUnused <= MAX_CONNECTIONS
    }

    /** The `i`-th free slot is unused and names the next one in the low half of its identifier. */
    ghost predicate Link(i: int)
      requires Sized() && 0 <= i < |free|
      reads this`nextUnused, this`free, this`gens, ctl
    {
      && 0 <= free[i] < nextUnused && !ctl[free[i]].inuse
      && Lo(ctl[free[i]].uid) == (if i + 1 < |free| then free[i + 1] else NO_SLOT)
    }

    /** A slot that has been used is in use or on the free list. */
    ghost predicate Placed(s: int)
      requires Sized() && 0 <= s < MAX_CONNECTIONS
      reads this`nextUnused, this`free, this`gens, ctl
    {
      s < nextUnused && !ctl[s].inuse ==> s in free
    }

    /** The free list runs through the low halves of the identifiers of the unused slots. */
    ghost predicate Listed()
      requires Sized()
      reads this`freelist, this`nextUnused, this`free, this`gens, ctl
    {
      && freelist == (if free == [] then NO_SLOT else free[0])
      && (forall i {:trigger Link(i)} :: 0 <= i < |free| ==> Link(i))
      && (forall i, j :: 0 <= i < j < |free| ==> free[i] != free[j])
      && (forall s {:trigger Placed(s)} :: 0 <= s < MAX_CONNECTIONS ==> Placed(s))
    }

    ghost function InFlight(s: int): int
      reads this`rd, this`wr
    {
      (if s in rd then 1 else 0) + (if s in wr then 1 else 0)
    }

    /** What a connection's user data is, protocol by protocol. */
    ghost predicate Attached(s: int)
      requires Sized() && 0 <= s < MAX_CONNECTIONS
      reads this`nextUnused, this`gens, this`rd, this`wr, this`owner, ctl
    {
      var c := ctl[s];
      match c.proto
      case None => c.udata.Service? && !c.firstMsg && !c.output && s !in wr
      case Some(Login) =>
        && s !in rd
        && ((c.udata.Null? && s !in wr)
            || (c.udata.Buf? && c.firstMsg && c.udata.b in owner && owner[c.udata.b] == ByConn(s) && (s in wr ==> wr[s].data == c.udata)))
      case Some(Echo) => c.udata.Handle? && (s in wr ==> !c.udata.outputReady && !wr[s].data.Buf?)
      case Some(Game) => c.udata.Null? && (s in wr ==> !wr[s].data.Buf?)
    }

    ghost predicate SlotOk(s: int)
      requires Sized() && 0 <= s < MAX_CONNECTIONS
      reads this`nextUnused, this`gens, this`rd, this`wr, this`owner, ctl
    {
      var c := ctl[s];
      && IsUid(c.uid) && Hi(c.uid) == gens[s] % 0x10000
      && (s >= nextUnused ==> c.uid == 0 && gens[s] == 0 && !c.inuse)
      && (!c.inuse ==> s !in rd && s !in wr)
      && (c.inuse ==> gens[s] > 0 && Lo(c.uid) == s && c.pending == InFlight(s) && Attached(s))
      && (s in rd ==> rd[s].gen == gens[s] && (rd[s].body ==> 0 < c.bodylen <= INPUT_BUFFER_SIZE))
      && (s in wr ==> wr[s].gen == gens[s] && wr[s].data == c.outputData && c.output)
    }

    /** The flags say what is under way. */
    ghost predicate Settled(s: int)
      requires Sized() && 0 <= s < MAX_CONNECTIONS
      reads this`nextUnused, this`gens, this`wr, ctl
    {
      ctl[s].inuse ==> (ctl[s].closing ==> ctl[s].pending > 0) && (!ctl[s].closing && ctl[s].output ==> s in wr)
    }

    ghost predicate Table()
      reads this`freelist, this`nextUnused, this`free, this`gens, this`rd, this`wr, this`owner, ctl
    {
      && Sized() && Listed()
      && (forall s {:trigger SlotOk(s)} :: 0 <= s < MAX_CONNECTIONS ==> SlotOk(s))
      && (forall s {:trigger s in rd} :: s in rd ==> 0 <= s < MAX_CONNECTIONS)
      && (forall s {:trigger s in wr} :: s in wr ==> 0 <= s < MAX_CONNECTIONS)
    }

    ghost predicate SettledBut(t: int)
      requires Sized()
      reads this`nextUnused, this`gens, this`wr, ctl
    {
      forall s {:trigger Settled(s)} :: 0 <= s < MAX_CONNECTIONS && s != t ==> Settled(s)
    }

    // ----- callbacks -----

    ghost predicate Live(c: ConnId)
      requires Sized()
      reads this`nextUnused, this`gens, ctl
    {
      0 <= c.slot < MAX_CONNECTIONS && ctl[c.slot].inuse && gens[c.slot] == c.gen
    }

    /** Callbacks go to live connections only, OnClose last, and every connection with a protocol gets it. */
    ghost predicate Logged()
      requires Sized()
      reads this`nextUnused, this`gens, this`log, ctl
    {
      && Orderly(log)
      && (forall c {:trigger c in Closed(log)} :: c in Closed(log) ==> !Live(c) && 0 <= c.slot < MAX_CONNECTIONS && c.gen <= gens[c.slot])
      && (forall c {:trigger c in Assigned(log)} :: c in Assigned(log) <==> c in Closed(log) || (Live(c) && ctl[c.slot].proto.Some?))
    }

    // ----- buffers -----

    ghost predicate Owned(b: nat)
      requires Sized() && b in owner
      reads this`nextUnused, this`gens, this`owner, this`logins, this`pool, ctl
    {
      match owner[b]
      case ByLogin(l) => l in logins && logins[l].output == Some(b)
      case ByConn(s) => 0 <= s < MAX_CONNECTIONS && ctl[s].inuse && ctl[s].proto == Some(Login) && ctl[s].udata == Buf(b)
      case InPool => b in pool
    }

    ghost predicate Pooled()
      requires Sized()
      reads this`nextUnused, this`gens, this`owner, this`logins, this`pool, this`nextBuf, ctl
    {
      && (forall b {:trigger b in owner} :: b in owner ==> b < nextBuf)
      && (forall b {:trigger Owned(b)} :: b in owner ==> Owned(b))
      && |pool| <= MAX_IDLE_OUTBUFS
      && (forall i {:trigger pool[i]} :: 0 <= i < |pool| ==> pool[i] in owner && owner[pool[i]] == InPool)
      && (forall i, j :: 0 <= i < j < |pool| ==> pool[i] != pool[j])
    }

    // ----- logins -----

    ghost predicate LoginOk(l: nat)
      requires Sized() && l in logins && l in home && l in place
      reads this`nextUnused, this`gens, this`owner, this`logins, this`home, this`place, ctl
    {
      var c := home[l];
      && 0 <= c.slot < MAX_CONNECTIONS && logins[l].connection == UidOf(c.slot, c.gen)
      && 0 < c.gen <= gens[c.slot] < c.gen + 0x10000
      && (logins[l].output.Some? ==> logins[l].output.value in owner && owner[logins[l].output.value] == ByLogin(l))
      && (Live(c) ==> ctl[c.slot].proto == Some(Login) && ctl[c.slot].udata.Null? && ctl[c.slot].firstMsg)
      && (place[l].InDb? ==> logins[l].output.None?)
      && (place[l].InServer? ==> logins[l].output.Some?)
    }

    ghost predicate Logins()
      requires Sized()
      reads this`nextUnused, this`gens, this`owner, this`logins, this`nextLogin, this`home, this`place, ctl
    {
      && logins.Keys == home.Keys == place.Keys
      && (forall l {:trigger l in logins} :: l in logins ==> l < nextLogin)
      && (forall l {:trigger LoginOk(l)} :: l in logins ==> LoginOk(l))
      && (forall l, m {:trigger home[l], home[m]} :: l in home && m in home && home[l] == home[m] ==> l == m)
    }

    ghost predicate Waits(l: nat)
      requires l in place
      reads this`place, this`dbQueue, this`dbTask, this`serverQueue, this`serverTask
    {
      match place[l]
      case InDb => l in dbQueue
      case AtDb => dbTask == Some(l)
      case InServer => l in serverQueue
      case AtServer => serverTask == Some(l)
      case Dropped => true
    }

    /** Every record waits in the place recorded for it, once. */
    ghost predicate Queued()
      requires logins.Keys == place.Keys
      reads this`logins, this`place, this`dbQueue, this`dbTask, this`serverQueue, this`serverTask
    {
      && (forall i {:trigger dbQueue[i]} :: 0 <= i < |dbQueue| ==> dbQueue[i] in place && place[dbQueue[i]].InDb?)
      && (forall i, j :: 0 <= i < j < |dbQueue| ==> dbQueue[i] != dbQueue[j])
      && (forall i {:trigger serverQueue[i]} :: 0 <= i < |serverQueue| ==> serverQueue[i] in place && place[serverQueue[i]].InServer?)
      && (forall i, j :: 0 <= i < j < |serverQueue| ==> serverQueue[i] != serverQueue[j])
      && (dbTask.Some? ==> dbTask.value in place && place[dbTask.value].AtDb?)
      && (serverTask.Some? ==> serverTask.value in place && place[serverTask.value].AtServer?)
      && (forall l {:trigger Waits(l)} :: l in place ==> Waits(l))
    }

    /** Everything, but the flags of slot `t` need not be settled. */
    ghost predicate Inv(t: int)
      reads this, ctl
    {
      Table() && SettledBut(t) && Logged() && Pooled() && Logins() && Queued()
    }

    ghost predicate Valid()
      reads this, ctl
    {
      Inv(-1)
    }
  }
}
