/** Whole runs: completions, new connections, timeouts and the work of the threads in any order. */
module ConnRun {
  import opened Options
  import opened ConnUid
  import opened ConnLog
  import opened ConnState
  import opened ConnSpec
  import opened ConnTable
  import opened ConnIo
  import opened LoginRecords
  import opened LoginResolve
  import opened ConnEvents
  import opened ConnStart

  method ResetCount(v: Server, s: int)
    requires v.Valid() && 0 <= s < MAX_CONNECTIONS && v.ctl[s].inuse
    modifies v.ctl
    ensures v.Valid() && OthersKept(v, s) && v.ctl[s] == old(v.ctl[s]).(rdwr := 0)
  {
    assert v.SlotOk(s) && v.Settled(s);
    v.ctl[s] := v.ctl[s].(rdwr := 0);
    TunedInv(v, s, -1);
    assert v.Settled(s);
  }

  method CheckSlot(v: Server, s: int)
    requires v.Valid() && 0 <= s < MAX_CONNECTIONS
    modifies v`pool, v`owner, v`log, v`freelist, v`free, v.ctl
    ensures v.Valid() && OthersKept(v, s) && Checked(v.ctl[s], old(v.ctl[s]))
    ensures v.log == old(v.log) + SlotCalls(old(v.ctl[s]), ConnId(s, v.gens[s]))
  {
    if v.ctl[s].inuse {
      if v.ctl[s].rdwr == 0 {
        StartClose(v, s);
      } else {
        ResetCount(v, s);
      }
    }
  }

  /** connmgr_timeout_check */
  method TimeoutCheck(v: Server)
    requires v.Valid()
    modifies v`pool, v`owner, v`log, v`freelist, v`free, v.ctl
    ensures v.Valid() && Swept(old(v.Current()), v.Current())
  {
    hide Server.Listed, Server.SettledBut, Server.Logged, Server.Pooled, Server.Logins, Server.Queued;
    for s := 0 to v.nextUnused
      invariant v.Valid()
      invariant forall x {:trigger v.ctl[x]} :: 0 <= x < s ==> Checked(v.ctl[x], old(v.ctl[x]))
      invariant forall x {:trigger v.ctl[x]} :: s <= x < MAX_CONNECTIONS ==> v.ctl[x] == old(v.ctl[x])
      invariant v.log == old(v.log) + SweepCalls(old(v.Current()), s)
    {
      CheckSlot(v, s);
    }
    assert forall x {:trigger v.ctl[x]} :: v.nextUnused <= x < MAX_CONNECTIONS ==> v.SlotOk(x);
  }

  /** connection_close and connection_abort, on an identifier handed out for the `g`-th connection of slot `s`: it is
      ignored unless the slot is in use by that connection, or by one a multiple of 65536 allocations later. */
  method CloseByUid(v: Server, s: int, g: nat)
    requires v.Valid() && 0 <= s < MAX_CONNECTIONS && 0 < g <= v.gens[s]
    modifies v`pool, v`owner, v`log, v`freelist, v`free, v.ctl
    ensures v.Valid() && ClosedByUid(old(v.Current()), v.Current(), s, g)
  {
    LookupIsLive(v, s, g);
    var uid := UidOf(s, g);
    if v.ctl[Lo(uid)].uid == uid {
      StartClose(v, Lo(uid));
    }
  }

  /** internal_resolve_login, on a record that has its answer. */
  method Settle(v: Server, l: nat, ok: bool)
    requires v.Valid() && v.serverTask == Some(l) && l in v.logins && v.logins[l].output.Some?
    modifies v`wr, v`pool, v`owner, v`logins, v`home, v`place, v`serverTask, v.ctl
    ensures v.Valid() && Settles(old(v.Current()), v.Current(), l, ok)
    ensures v.serverQueue == old(v.serverQueue) && v.place == old(v.place) - {l}
  {
    hide Server.SettledBut, Server.Logged, Server.Pooled, Server.Queued;
    RecordFindsItsConnection(v, l);
    if v.Live(v.home[l]) {
      ExpectingFacts(v, l, v.logins[l].output.value, v.home[l].slot);
    }
    ResolveLogin(v, l, ok);
  }

  lemma SettlesAfter(a: State, taken: State, b: State, l: nat, ok: bool)
    requires Settles(taken, b, l, ok) && a == taken.(serverQueue := a.serverQueue, serverTask := a.serverTask)
    ensures Settles(a, b, l, ok)
  {
  }

  /** A task of the server thread. */
  method RunServerTask(v: Server, ok: bool)
    requires v.Valid() && v.serverQueue != [] && v.serverTask.None?
    modifies v`serverQueue, v`serverTask, v`place, v`wr, v`pool, v`owner, v`logins, v`home, v.ctl
    ensures v.Valid() && Resolved(old(v.Current()), v.Current(), ok)
    ensures old(NoneDropped(v)) ==> NoneDropped(v)
  {
    hide Server.Inv, Settles;
    var l := ServerBegin(v);
    ghost var taken := v.Current();
    Settle(v, l, ok);
    SettlesAfter(old(v.Current()), taken, v.Current(), l, ok);
  }

  /** Which server-task posts were accepted. */
  predicate Accepted(e: Event)
  {
    e.DbPosts? ==> e.accepted
  }

  /** One step of the environment or of a thread. */
  method Step(v: Server, e: Event)
    requires v.Valid() && v.serverTask.None? && Possible(v.Current(), e)
    modifies v, v.ctl
    ensures v.Valid() && v.serverTask.None? && Leads(old(v.Current()), e, v.Current())
    ensures Accepted(e) && old(NoneDropped(v)) ==> NoneDropped(v)
  {
    hide Server.Inv;
    match e {
      case Connect(sendsFirst, sendOk, readOk) => var slot := StartConnection(v, sendsFirst, sendOk, readOk);
      case ReadLengthCompletes(s, err, some, bodylen, fails) => ReadLengthDone(v, s, err, some, bodylen, fails);
      case ReadBodyCompletes(s, err, some, choice, m, ok, fails) => ReadBodyDone(v, s, err, some, choice, m, ok, fails);
      case WriteCompletes(s, err, some, fails) => WriteDone(v, s, err, some, fails);
      case TimeoutsChecked => TimeoutCheck(v);
      case CloseCalled(s, g) => CloseByUid(v, s, g);
      case DbTakes => DbBegin(v);
      case DbAnswers => DbAnswer(v);
      case DbPosts(accepted) => DbPost(v, v.dbTask.value, accepted);
      case ServerTaskRuns(ok) => RunServerTask(v, ok);
    }
  }

  /** The database thread builds its answer. */
  method DbAnswer(v: Server)
    requires v.Valid() && v.dbTask.Some? && v.dbTask.value in v.logins && v.logins[v.dbTask.value].output.None?
    modifies v`pool, v`nextBuf, v`owner, v`logins
    ensures v.Valid()
    ensures AnswerBuilt(old(v.Current()), v.Current())
  {
    var b := GiveBuffer(v, v.dbTask.value);
  }

  lemma SlotIsCounted(v: Server, s: int)
    requires v.Valid() && 0 <= s < MAX_CONNECTIONS
    ensures Counted(v.Current(), s)
  {
    hide Server.Listed, Server.Logged, Server.Pooled, Server.Logins, Server.Queued, UidOf;
    assert v.SlotOk(s) && v.Settled(s);
    if v.ctl[s].inuse {
      NewIsQuiet(v, s);
    }
  }

  /** No two records carry the same identifier: they are of different connections, less than 65536 allocations old. */
  lemma RecordsDiffer(v: Server, l: nat, m: nat)
    requires v.Valid() && l in v.logins && m in v.logins && v.logins[l].connection == v.logins[m].connection
    ensures l == m
  {
    assert v.LoginOk(l) && v.LoginOk(m);
    var c, d := v.home[l], v.home[m];
    assert Lo(v.logins[l].connection) == c.slot == d.slot;
    UidRepeats(c.slot, c.gen, d.gen);
    Between(c.gen, d.gen, v.gens[c.slot]);
  }

  lemma Between(g: nat, h: nat, n: nat)
    requires SameTurn(g, h) && g <= n < g + 0x10000 && h <= n < h + 0x10000
    ensures g == h
  {
  }

  lemma ValidIsSound(v: Server)
    requires v.Valid()
    ensures Sound(v.Current())
  {
    forall s | 0 <= s < MAX_CONNECTIONS ensures Counted(v.Current(), s) {
      SlotIsCounted(v, s);
    }
    hide Counted;
    forall l, m | l in v.logins && m in v.logins && v.logins[l].connection == v.logins[m].connection ensures l == m {
      RecordsDiffer(v, l, m);
    }
  }

  /** The run goes on with its next event. */
  method Advance(v: Server, e: Event, ghost events: seq<Event>, ghost before: seq<State>) returns (ghost trace: seq<State>)
    requires v.Valid() && v.serverTask.None? && Traced(before, events, v.Current()) && |before| <= |events| && events[|before| - 1] == e
    modifies v, v.ctl
    ensures v.Valid() && v.serverTask.None? && Traced(trace, events, v.Current()) && |trace| == |before| + 1
    ensures Accepted(e) && old(NoneDropped(v)) ==> NoneDropped(v)
  {
    hide Leads;
    if Possible(v.Current(), e) {
      Step(v, e);
    }
    ValidIsSound(v);
    trace := before + [v.Current()];
    TracedOn(before, events, old(v.Current()), v.Current());
  }

  /** A run from the empty server through any events, in any order, that the environment can produce: `trace` is every
      state it goes through. */
  method Run(events: seq<Event>) returns (v: Server, ghost trace: seq<State>)
    ensures fresh(v) && v.Valid() && v.serverTask.None?
    ensures Traced(trace, events, v.Current()) && |trace| == |events| + 1
    ensures (forall e :: e in events ==> Accepted(e)) ==> NoneDropped(v)
  {
    v := new Server();
    trace := [v.Current()];
    ValidIsSound(v);
    for i := 0 to |events|
      invariant fresh(v) && fresh(v.ctl) && v.Valid() && v.serverTask.None?
      invariant Traced(trace, events, v.Current()) && |trace| == i + 1
      invariant (forall e :: e in events ==> Accepted(e)) ==> NoneDropped(v)
    {
      trace := Advance(v, events[i], events, trace);
    }
  }
}
