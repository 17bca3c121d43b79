/** What becomes of one connection: when it is closed for being idle, how a login gets its answer, and what every event
    decides, over any run and without the functions the handlers are proved against. */
module ConnLaws {
  import opened Options
  import opened ConnUid
  import opened ConnLog
  import opened ConnState
  import opened ConnSpec
  import opened ConnTrace

  /** The `g`-th connection of slot `s` is there; it is open unless it is closing. */
  ghost predicate There(a: State, s: int, g: nat)
  {
    Sized(a) && 0 <= s < MAX_CONNECTIONS && a.ctl[s].inuse && a.gens[s] == g
  }

  ghost predicate Open(a: State, s: int, g: nat)
  {
    There(a, s, g) && !a.ctl[s].closing
  }

  ghost predicate Runs(trace: seq<State>, events: seq<Event>)
  {
    Steps(trace, events) && forall k {:trigger trace[k]} :: 0 <= k < |trace| ==> Sound(trace[k])
  }

  // ----- idle connections -----

  /** A body read or a write of slot `s` has completed: what connmgr_timeout_check counts. */
  predicate Counts(e: Event, s: int)
  {
    (e.ReadBodyCompletes? || e.WriteCompletes?) && e.slot == s
  }

  /** The connection is gone, or on its way out, or nothing has been counted for it since the last check. */
  ghost predicate Idle(a: State, s: int, g: nat)
  {
    Gone(a, s, g) || (There(a, s, g) && (a.ctl[s].closing || a.ctl[s].rdwr == 0))
  }

  ghost predicate Leaving(a: State, s: int, g: nat)
  {
    Gone(a, s, g) || (There(a, s, g) && a.ctl[s].closing)
  }

  lemma IdleStep(a: State, e: Event, b: State, s: int, g: nat)
    requires Sound(a) && Sized(b) && Possible(a, e) && Leads(a, e, b) && Idle(a, s, g) && !Counts(e, s)
    ensures Idle(b, s, g) && (e == TimeoutsChecked ==> Leaving(b, s, g))
  {
    assert Counted(a, s);
  }

  lemma CheckedIsIdle(a: State, b: State, s: int, g: nat)
    requires Sound(a) && Sized(b) && Leads(a, TimeoutsChecked, b) && There(b, s, g)
    ensures Idle(b, s, g)
  {
  }

  lemma {:induction false} IdleUntil(trace: seq<State>, events: seq<Event>, s: int, g: nat, i: nat, j: nat)
    requires Runs(trace, events) && i < j < |trace| && events[i] == TimeoutsChecked && There(trace[i + 1], s, g)
    requires forall m {:trigger events[m]} :: i < m < j && Counts(events[m], s) ==> !Possible(trace[m], events[m])
    ensures Idle(trace[j], s, g)
    decreases j
  {
    hide Leads, Idle, Gone;
    assert Sound(trace[j - 1]) && Sound(trace[j]);
    assert Took(trace[j - 1], events[j - 1], trace[j]);
    if j == i + 1 {
      CheckedIsIdle(trace[i], trace[j], s, g);
    } else {
      IdleUntil(trace, events, s, g, i, j - 1);
      if Possible(trace[j - 1], events[j - 1]) {
        IdleStep(trace[j - 1], events[j - 1], trace[j], s, g);
      }
    }
  }

  /** A connection that is there after one timeout check, and has no body read or write completed before the next, is
      closing or gone after that. */
  lemma IdleIsClosed(trace: seq<State>, events: seq<Event>, s: int, g: nat, i: nat, j: nat)
    requires Runs(trace, events) && i < j && j + 1 < |trace| && events[i] == events[j] == TimeoutsChecked
    requires There(trace[i + 1], s, g)
    requires forall m {:trigger events[m]} :: i < m < j && Counts(events[m], s) ==> !Possible(trace[m], events[m])
    ensures Gone(trace[j + 1], s, g) || (There(trace[j + 1], s, g) && trace[j + 1].ctl[s].closing)
  {
    hide Leads, Idle, Gone;
    IdleUntil(trace, events, s, g, i, j);
    assert Sound(trace[j]) && Sound(trace[j + 1]);
    assert Took(trace[j], events[j], trace[j + 1]);
    IdleStep(trace[j], events[j], trace[j + 1], s, g);
  }

  // ----- active connections -----

  /** What is counted for a connection that is there after an event other than a timeout check. */
  lemma CountStep(a: State, e: Event, b: State, s: int, g: nat)
    requires Sound(a) && Sized(b) && Possible(a, e) && Leads(a, e, b) && There(b, s, g) && e != TimeoutsChecked
    ensures There(a, s, g) ==> b.ctl[s].rdwr == a.ctl[s].rdwr + if Counts(e, s) then 1 else 0
    ensures !There(a, s, g) ==> b.ctl[s].rdwr == 1
  {
    assert Counted(a, s);
    if e.ReadBodyCompletes? {
      BodyCountStep(a, e, b, s, g);
    }
  }

  lemma BodyCountStep(a: State, e: Event, b: State, s: int, g: nat)
    requires Sound(a) && Sized(b) && Possible(a, e) && Leads(a, e, b) && There(b, s, g) && e.ReadBodyCompletes?
    ensures There(a, s, g) && b.ctl[s].rdwr == a.ctl[s].rdwr + if Counts(e, s) then 1 else 0
  {
    assert Counted(a, s);
  }

  lemma CheckStep(a: State, b: State, s: int, g: nat)
    requires Sound(a) && Sized(b) && Leads(a, TimeoutsChecked, b) && There(b, s, g)
    ensures There(a, s, g) && b.ctl[s].rdwr == 0
  {
  }

  ghost predicate NotNegative(a: State, s: int)
  {
    Sized(a) && 0 <= s < MAX_CONNECTIONS && (a.ctl[s].inuse ==> a.ctl[s].rdwr >= 0)
  }

  lemma NotNegativeStep(a: State, e: Event, b: State, s: int)
    requires Sound(a) && Sized(b) && Possible(a, e) && Leads(a, e, b) && NotNegative(a, s)
    ensures NotNegative(b, s)
  {
    hide Leads;
    if b.ctl[s].inuse {
      if e == TimeoutsChecked {
        CheckStep(a, b, s, b.gens[s]);
      } else {
        CountStep(a, e, b, s, b.gens[s]);
      }
    }
  }

  lemma {:induction false} NeverNegative(trace: seq<State>, events: seq<Event>, s: int, k: nat)
    requires Runs(trace, events) && trace[0] == Empty() && 0 <= s < MAX_CONNECTIONS && k < |trace|
    ensures NotNegative(trace[k], s)
  {
    hide Leads;
    if k > 0 {
      NeverNegative(trace, events, s, k - 1);
      assert Sound(trace[k - 1]) && Sound(trace[k]);
      assert Took(trace[k - 1], events[k - 1], trace[k]);
      if Possible(trace[k - 1], events[k - 1]) {
        NotNegativeStep(trace[k - 1], events[k - 1], trace[k], s);
      }
    }
  }

  /** The connection is gone, or something has been counted for it. */
  ghost predicate Active(a: State, s: int, g: nat)
  {
    Gone(a, s, g) || (There(a, s, g) && a.ctl[s].rdwr > 0)
  }

  /** The event opens the connection, or is a completion counted for it. */
  ghost predicate Stirs(a: State, e: Event, b: State, s: int, g: nat)
  {
    Possible(a, e) && There(b, s, g) && (!There(a, s, g) || Counts(e, s))
  }

  lemma StirredIsActive(a: State, e: Event, b: State, s: int, g: nat)
    requires Sound(a) && Sized(b) && Leads(a, e, b) && Stirs(a, e, b, s, g) && NotNegative(a, s)
    ensures Active(b, s, g)
  {
    hide Leads;
    if e == TimeoutsChecked {
      CheckStep(a, b, s, g);
    } else {
      CountStep(a, e, b, s, g);
    }
  }

  lemma ActiveStep(a: State, e: Event, b: State, s: int, g: nat)
    requires Sound(a) && Sized(b) && Possible(a, e) && Leads(a, e, b) && Active(a, s, g) && e != TimeoutsChecked
    ensures Active(b, s, g)
  {
    hide Leads;
    GoneOrThere(a, e, b, s, g);
    if There(b, s, g) {
      CountStep(a, e, b, s, g);
    }
  }

  /** A connection that has been there is there or gone after any event. */
  lemma GoneOrThere(a: State, e: Event, b: State, s: int, g: nat)
    requires Sound(a) && Sized(b) && Possible(a, e) && Leads(a, e, b) && (There(a, s, g) || Gone(a, s, g))
    ensures There(b, s, g) || Gone(b, s, g)
    ensures Gone(a, s, g) ==> Gone(b, s, g)
  {
    assert Counted(a, s);
  }

  lemma {:induction false} ActiveUntil(trace: seq<State>, events: seq<Event>, s: int, g: nat, k: nat, j: nat)
    requires Runs(trace, events) && trace[0] == Empty() && k < j < |trace| && Stirs(trace[k], events[k], trace[k + 1], s, g)
    requires forall m {:trigger events[m]} :: k < m < j ==> events[m] != TimeoutsChecked
    ensures Active(trace[j], s, g)
    decreases j
  {
    hide Leads, Active, Gone;
    assert Sound(trace[j - 1]) && Sound(trace[j]);
    assert Took(trace[j - 1], events[j - 1], trace[j]);
    if j == k + 1 {
      NeverNegative(trace, events, s, k);
      StirredIsActive(trace[k], events[k], trace[j], s, g);
    } else {
      ActiveUntil(trace, events, s, g, k, j - 1);
      if Possible(trace[j - 1], events[j - 1]) {
        ActiveStep(trace[j - 1], events[j - 1], trace[j], s, g);
      }
    }
  }

  lemma ActiveIsSpared(a: State, b: State, s: int, g: nat)
    requires Sound(a) && Sized(b) && Leads(a, TimeoutsChecked, b) && Active(a, s, g) && There(a, s, g)
    ensures There(b, s, g) && b.ctl[s].closing == a.ctl[s].closing
  {
  }

  /** A connection opened since the last timeout check, or with a body read or a write completed since then, is left by
      the next one as it is: open if it is open. */
  lemma ActiveIsKept(trace: seq<State>, events: seq<Event>, s: int, g: nat, k: nat, j: nat)
    requires Runs(trace, events) && trace[0] == Empty() && k < j && j + 1 < |trace| && events[j] == TimeoutsChecked
    requires Possible(trace[k], events[k]) && There(trace[k + 1], s, g) && (!There(trace[k], s, g) || Counts(events[k], s))
    requires forall m {:trigger events[m]} :: k < m < j ==> events[m] != TimeoutsChecked
    requires There(trace[j], s, g)
    ensures There(trace[j + 1], s, g) && trace[j + 1].ctl[s].closing == trace[j].ctl[s].closing
  {
    hide Leads, Active, Gone;
    ActiveUntil(trace, events, s, g, k, j);
    assert Sound(trace[j]) && Sound(trace[j + 1]);
    assert Took(trace[j], events[j], trace[j + 1]);
    ActiveIsSpared(trace[j], trace[j + 1], s, g);
  }

  // ----- a login gets its answer -----

  /** The connection is open and waits, with nothing under way, for the answer in the record `l`. */
  ghost predicate Awaits(a: State, s: int, g: nat, l: nat)
  {
    && Open(a, s, g) && a.ctl[s].proto == Some(Login) && a.ctl[s].udata.Null? && a.ctl[s].pending == 0
    && s !in a.rd && s !in a.wr && l in a.logins && a.logins[l].connection == a.ctl[s].uid
  }

  /** What can end the waiting: a timeout check, a call that closes the slot's connection, the record's own task. */
  ghost predicate EndsWaiting(a: State, e: Event, s: int, l: nat)
  {
    Possible(a, e) &&
    match e
    case TimeoutsChecked => true
    case CloseCalled(t, _) => t == s
    case ServerTaskRuns(_) => a.serverQueue != [] && a.serverQueue[0] == l
    case _ => false
  }

  lemma AcceptedAwaits(a: State, e: Event, b: State, s: int, l: nat)
    requires Sound(a) && Sized(b) && Possible(a, e) && Leads(a, e, b)
    requires e.ReadBodyCompletes? && e.slot == s && !e.err && e.some && e.choice == Some(Login) && e.m == Accepted(true)
    requires 0 <= s < MAX_CONNECTIONS && !a.ctl[s].closing && a.ctl[s].proto.None? && l == a.nextLogin
    ensures Awaits(b, s, a.gens[s], l)
    ensures b.logins[l].output.None? && b.dbQueue == a.dbQueue + [l]
  {
    assert Counted(a, s);
  }

  lemma AwaitsStep(a: State, e: Event, b: State, s: int, g: nat, l: nat)
    requires Sound(a) && Sound(b) && Possible(a, e) && Leads(a, e, b) && Awaits(a, s, g, l) && !EndsWaiting(a, e, s, l)
    ensures Awaits(b, s, g, l)
  {
    assert Counted(a, s);
  }

  /** After an accepted and queued login the connection stays open, waiting, whatever else happens, until a timeout check,
      a call that closes its slot, or the task of its own record. */
  lemma {:induction false} LoginWaits(trace: seq<State>, events: seq<Event>, s: int, g: nat, l: nat, k: nat, j: nat)
    requires Runs(trace, events) && k < j < |trace| && Possible(trace[k], events[k])
    requires events[k].ReadBodyCompletes? && events[k].slot == s && !events[k].err && events[k].some
    requires events[k].choice == Some(Login) && events[k].m == Accepted(true)
    requires There(trace[k], s, g) && !trace[k].ctl[s].closing && trace[k].ctl[s].proto.None? && l == trace[k].nextLogin
    requires forall m {:trigger events[m]} :: k < m < j ==> !EndsWaiting(trace[m], events[m], s, l)
    ensures Awaits(trace[j], s, g, l)
    decreases j
  {
    hide Leads;
    assert Sound(trace[j - 1]) && Sound(trace[j]);
    assert Took(trace[j - 1], events[j - 1], trace[j]);
    if j == k + 1 {
      AcceptedAwaits(trace[k], events[k], trace[j], s, l);
    } else {
      LoginWaits(trace, events, s, g, l, k, j - 1);
      if Possible(trace[j - 1], events[j - 1]) {
        AwaitsStep(trace[j - 1], events[j - 1], trace[j], s, g, l);
      }
    }
  }

  lemma AnswerStep(a: State, b: State, s: int, g: nat, l: nat, ok: bool)
    requires Sound(a) && Sized(b) && Leads(a, ServerTaskRuns(ok), b) && Awaits(a, s, g, l) && a.serverQueue[0] == l
    ensures Open(b, s, g) && l !in b.logins && a.logins[l].output.Some? && b.ctl[s].udata == Buf(a.logins[l].output.value)
    ensures if ok then s in b.wr && b.wr[s] == WriteOp(g, b.ctl[s].udata) else s !in b.wr
  {
    assert Counted(a, s);
  }

  /** The task of its record then leaves the record's buffer as the connection's data, being written if the system
      accepts the write. */
  lemma LoginAnswered(trace: seq<State>, events: seq<Event>, s: int, g: nat, l: nat, k: nat, j: nat)
    requires Runs(trace, events) && k < j && j + 1 < |trace| && Possible(trace[k], events[k])
    requires events[k].ReadBodyCompletes? && events[k].slot == s && !events[k].err && events[k].some
    requires events[k].choice == Some(Login) && events[k].m == Accepted(true)
    requires There(trace[k], s, g) && !trace[k].ctl[s].closing && trace[k].ctl[s].proto.None? && l == trace[k].nextLogin
    requires forall m {:trigger events[m]} :: k < m < j ==> !EndsWaiting(trace[m], events[m], s, l)
    requires events[j].ServerTaskRuns? && trace[j].serverQueue != [] && trace[j].serverQueue[0] == l
    ensures Open(trace[j + 1], s, g) && l in trace[j].logins && trace[j].logins[l].output.Some?
    ensures trace[j + 1].ctl[s].udata == Buf(trace[j].logins[l].output.value)
    ensures events[j].sendOk ==> s in trace[j + 1].wr && trace[j + 1].wr[s] == WriteOp(g, trace[j + 1].ctl[s].udata)
    ensures !events[j].sendOk ==> s !in trace[j + 1].wr
  {
    hide Leads;
    LoginWaits(trace, events, s, g, l, k, j);
    assert Sound(trace[j]) && Sound(trace[j + 1]);
    assert Took(trace[j], events[j], trace[j + 1]);
    AnswerStep(trace[j], trace[j + 1], s, g, l, events[j].sendOk);
  }

  /** A login that is refused, or that the database queue does not take, is told so when the system accepts the write,
      and closes behind it; without the write it is gone. No record stays. */
  lemma RefusalIsSent(a: State, b: State, s: int, g: nat, m: LoginMessage, ok: bool, fails: nat)
    requires Sound(a) && Sound(b) && Open(a, s, g) && a.ctl[s].proto.None? && s in a.rd
    requires Leads(a, ReadBodyCompletes(s, false, true, Some(Login), m, ok, fails), b) && (m == Refused || m == Accepted(false))
    ensures b.logins == a.logins && b.dbQueue == a.dbQueue
    ensures ok ==> There(b, s, g) && b.ctl[s].closing && b.ctl[s].pending == 1 && b.ctl[s].udata.Buf?
    ensures ok ==> s in b.wr && b.wr[s] == WriteOp(g, b.ctl[s].udata)
    ensures !ok ==> Gone(b, s, g)
  {
    assert Counted(a, s) && Counted(b, s);
  }

  // ----- what every event decides -----

  lemma LengthDecides(a: State, b: State, s: int, g: nat, err: bool, some: bool, bodylen: nat, fails: nat)
    requires Sound(a) && Sized(b) && Open(a, s, g) && Leads(a, ReadLengthCompletes(s, err, some, bodylen, fails), b) && s in a.rd
    ensures Open(b, s, g) <==> fails < 5 && (err || (some && 0 < bodylen <= 1024))
    ensures Open(b, s, g) ==> s in b.rd && b.rd[s] == ReadOp(g, !err) && (!err ==> b.ctl[s].bodylen == bodylen)
    ensures s in b.wr <==> s in a.wr
  {
  }

  /** A body: with an error it is read again, without one the protocol decides. An echo connection goes on reading and
      sends its answer back if none is being written; an accepted and queued login waits; everything else closes. */
  lemma BodyDecides(a: State, b: State, s: int, g: nat, err: bool, some: bool, choice: Option<Proto>, m: LoginMessage, ok: bool, fails: nat, p: Option<Proto>)
    requires Sound(a) && Sized(b) && Open(a, s, g) && s in a.rd
    requires Leads(a, ReadBodyCompletes(s, err, some, choice, m, ok, fails), b)
    requires p == if a.ctl[s].proto.Some? then a.ctl[s].proto else choice
    ensures Open(b, s, g) <==> if err then fails < 5 else some && ((p == Some(Echo) && fails < 5) || (p == Some(Login) && m == Accepted(true)))
    ensures Open(b, s, g) && err ==> s in b.rd && b.rd[s] == ReadOp(g, true)
    ensures Open(b, s, g) && !err ==> b.ctl[s].proto == p && (if p == Some(Echo) then s in b.rd && b.rd[s] == ReadOp(g, false) else s !in b.rd)
  {
    assert Counted(a, s);
  }

  /** The callbacks of a message: the protocol is assigned if the message selects it, gets the message, and is told to
      close if that is the end of the connection. */
  lemma BodyCalls(a: State, b: State, s: int, g: nat, choice: Option<Proto>, m: LoginMessage, ok: bool, fails: nat, p: Option<Proto>)
    requires Sound(a) && Sized(b) && Open(a, s, g) && s in a.rd
    requires Leads(a, ReadBodyCompletes(s, false, true, choice, m, ok, fails), b)
    requires p == if a.ctl[s].proto.Some? then a.ctl[s].proto else choice
    ensures b.log == a.log + (if p.Some? && a.ctl[s].proto.None? then [Callback(ConnId(s, g), OnAssign)] else [])
                   + (if p.Some? then [Callback(ConnId(s, g), OnRecv)] else [])
                   + (if p.Some? && !There(b, s, g) then [Callback(ConnId(s, g), OnClose)] else [])
  {
    assert Counted(a, s);
  }

  /** An echo connection sends its answer exactly when none is being written and the system takes it; then the next one
      has to wait until this one is written. */
  lemma EchoAnswers(a: State, b: State, s: int, g: nat, choice: Option<Proto>, m: LoginMessage, ok: bool, fails: nat)
    requires Sound(a) && Sound(b) && Open(a, s, g) && s in a.rd && There(b, s, g)
    requires Leads(a, ReadBodyCompletes(s, false, true, choice, m, ok, fails), b)
    requires a.ctl[s].proto == Some(Echo) || (a.ctl[s].proto.None? && choice == Some(Echo))
    ensures var ready := a.ctl[s].proto.None? || a.ctl[s].udata == Handle(true);
            && (ready && ok ==> s in b.wr && b.wr[s] == WriteOp(g, Handle(true)) && b.ctl[s].udata == Handle(false))
            && (ready && !ok ==> b.ctl[s].udata == Handle(true))
            && (!ready ==> (s in b.wr <==> a.ctl[s].output) && b.ctl[s].udata == a.ctl[s].udata)
  {
    assert Counted(a, s) && Counted(b, s);
  }

  /** A write: with an error it is tried again, otherwise the protocol goes on, but for a login, which is over. An echo
      connection may then answer again. */
  lemma WriteDecides(a: State, b: State, s: int, g: nat, err: bool, some: bool, fails: nat)
    requires Sound(a) && Sized(b) && Open(a, s, g) && s in a.wr && Leads(a, WriteCompletes(s, err, some, fails), b)
    ensures Open(b, s, g) <==> if err then fails < 5 else some && a.ctl[s].proto != Some(Login)
    ensures Open(b, s, g) && err ==> b.wr == a.wr
    ensures Open(b, s, g) && !err ==> s !in b.wr && !b.ctl[s].output && (a.ctl[s].proto == Some(Echo) ==> b.ctl[s].udata == Handle(true))
    ensures !err && some ==> b.log == a.log + [Callback(ConnId(s, g), OnWrite)] + if There(b, s, g) then [] else [Callback(ConnId(s, g), OnClose)]
    ensures b.rd == a.rd
  {
    assert Counted(a, s);
  }

  lemma ElsewhereReads(a: State, b: State, t: int, s: int)
    requires Elsewhere(a, b, t) && s != t
    ensures s in b.rd <==> s in a.rd
    ensures s in b.rd ==> b.rd[s] == a.rd[s]
  {
    assert s in b.rd - {t} <==> s in b.rd;
    assert s in a.rd - {t} <==> s in a.rd;
    assert s in b.rd ==> (b.rd - {t})[s] == b.rd[s];
    assert s in a.rd ==> (a.rd - {t})[s] == a.rd[s];
  }

  lemma ReadsStay(a: State, e: Event, b: State, s: int, g: nat)
    requires Sound(a) && Sized(b) && There(a, s, g) && Possible(a, e) && Leads(a, e, b) && !Completes(e, s)
    ensures s in b.rd <==> s in a.rd
    ensures s in b.rd ==> b.rd[s] == a.rd[s]
  {
    match e {
      case Connect(_, _, _) => ElsewhereReads(a, b, NextSlot(a), s);
      case ReadLengthCompletes(t, _, _, _, _) => ElsewhereReads(a, b, t, s);
      case ReadBodyCompletes(t, _, _, _, _, _, _) => ElsewhereReads(a, b, t, s);
      case WriteCompletes(t, _, _, _) => ElsewhereReads(a, b, t, s);
      case _ =>
    }
  }

  /** A timeout check closes the open connections for which nothing was counted; a call closes the connection whose
      identifier it carries; nothing else but its own completions ends a connection. */
  lemma RestDecides(a: State, e: Event, b: State, s: int, g: nat)
    requires Sound(a) && Sized(b) && Open(a, s, g) && Possible(a, e) && Leads(a, e, b) && !Completes(e, s)
    ensures Open(b, s, g) <==> match e
              case TimeoutsChecked => a.ctl[s].rdwr != 0
              case CloseCalled(t, h) => t != s || (g - h) % 0x1_0000 != 0
              case _ => true
    ensures Open(b, s, g) ==> b.ctl[s].proto == a.ctl[s].proto
  {
    assert Counted(a, s);
  }

  /** A new connection gets the first free slot. It is open when its first read has been started; a service that sends
      first is a game connection with its challenge being written if the system takes it. */
  lemma ConnectDecides(a: State, b: State, s: int, g: nat, sendsFirst: bool, sendOk: bool, readOk: bool)
    requires Sound(a) && Sound(b) && Possible(a, Connect(sendsFirst, sendOk, readOk)) && Leads(a, Connect(sendsFirst, sendOk, readOk), b)
    requires s == (if a.freelist != 0xFFFF then a.freelist else a.nextUnused) && 0 <= s < MAX_CONNECTIONS && g == a.gens[s] + 1
    ensures Open(b, s, g) <==> readOk
    ensures There(b, s, g) <==> readOk || (sendsFirst && sendOk)
    ensures readOk ==> s in b.rd && b.rd[s] == ReadOp(g, false)
    ensures s in b.wr <==> sendsFirst && sendOk
    ensures There(b, s, g) ==> b.ctl[s].proto == (if sendsFirst then Some(Game) else None) && b.ctl[s].uid == UidOf(s, g)
    ensures s in b.wr ==> b.wr[s] == WriteOp(g, Static)
  {
    assert Counted(a, s) && Counted(b, s);
  }

  // ----- the server listens -----

  /** An open connection is being read, unless it is a login that waits for its answer. */
  ghost predicate Listens(a: State, s: int)
  {
    Sized(a) && 0 <= s < MAX_CONNECTIONS && (a.ctl[s].inuse && !a.ctl[s].closing && a.ctl[s].proto != Some(Login) ==> s in a.rd)
  }

  lemma ListensStep(a: State, e: Event, b: State, s: int)
    requires Sound(a) && Sound(b) && Possible(a, e) && Leads(a, e, b) && Listens(a, s)
    ensures Listens(b, s)
  {
    assert Counted(a, s);
    if a.ctl[s].inuse && !Completes(e, s) {
      ReadsStay(a, e, b, s, a.gens[s]);
    }
  }

  /** In every state of every run a read is under way for each open connection that is not a login. */
  lemma {:induction false} AlwaysListens(trace: seq<State>, events: seq<Event>, s: int, k: nat)
    requires Runs(trace, events) && trace[0] == Empty() && 0 <= s < MAX_CONNECTIONS && k < |trace|
    ensures trace[k].ctl[s].inuse && !trace[k].ctl[s].closing && trace[k].ctl[s].proto != Some(Login) ==> s in trace[k].rd
  {
    hide Leads;
    if k > 0 {
      AlwaysListens(trace, events, s, k - 1);
      assert Sound(trace[k - 1]) && Sound(trace[k]);
      assert Took(trace[k - 1], events[k - 1], trace[k]);
      if Possible(trace[k - 1], events[k - 1]) {
        ListensStep(trace[k - 1], events[k - 1], trace[k], s);
      }
    }
  }
}
