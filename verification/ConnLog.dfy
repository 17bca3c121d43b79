/** The protocol callbacks of a run, in order. */
module ConnLog {

  datatype Kind = OnAssign | OnConnect | OnRecv | OnWrite | OnClose

  /** The `gen`-th connection in `slot`. */
  datatype ConnId = ConnId(slot: int, gen: nat)

  datatype Callback = Callback(conn: ConnId, kind: Kind)

  ghost function Closed(log: seq<Callback>): set<ConnId>
  {
    if log == [] then {} else
      var last := log[|log| - 1];
      Closed(log[..|log| - 1]) + if last.kind.OnClose? then {last.conn} else {}
  }

  ghost function Assigned(log: seq<Callback>): set<ConnId>
  {
    if log == [] then {} else
      var last := log[|log| - 1];
      Assigned(log[..|log| - 1]) + if last.kind.OnAssign? then {last.conn} else {}
  }

  /** No callback of a connection follows its OnClose. */
  ghost predicate Orderly(log: seq<Callback>)
  {
    log == [] || (Orderly(log[..|log| - 1]) && log[|log| - 1].conn !in Closed(log[..|log| - 1]))
  }

  lemma Append(log: seq<Callback>, e: Callback)
    ensures Closed(log + [e]) == Closed(log) + if e.kind.OnClose? then {e.conn} else {}
    ensures Assigned(log + [e]) == Assigned(log) + if e.kind.OnAssign? then {e.conn} else {}
    ensures Orderly(log + [e]) <==> Orderly(log) && e.conn !in Closed(log)
  {
    assert (log + [e])[..|log|] == log;
  }

  lemma {:induction false} ClosedHas(log: seq<Callback>, i: int)
    requires 0 <= i < |log| && log[i].kind.OnClose?
    ensures log[i].conn in Closed(log)
  {
    if i < |log| - 1 {
      ClosedHas(log[..|log| - 1], i);
    }
  }

  lemma {:induction false} AssignedHas(log: seq<Callback>, i: int)
    requires 0 <= i < |log| && log[i].kind.OnAssign?
    ensures log[i].conn in Assigned(log)
  {
    if i < |log| - 1 {
      AssignedHas(log[..|log| - 1], i);
    }
  }

  lemma {:induction false} ClosedWitness(log: seq<Callback>, c: ConnId)
    requires c in Closed(log)
    ensures Callback(c, OnClose) in log
  {
    var last := log[|log| - 1];
    if !(last.kind.OnClose? && last.conn == c) {
      ClosedWitness(log[..|log| - 1], c);
      var i :| 0 <= i < |log| - 1 && log[..|log| - 1][i] == Callback(c, OnClose);
      assert log[i] == Callback(c, OnClose);
    }
  }

  /** In an orderly log OnClose comes at most once for a connection, and nothing of that connection after it. */
  lemma {:induction false} NothingAfterClose(log: seq<Callback>, i: int, j: int)
    requires Orderly(log) && 0 <= i < j < |log| && log[i].kind.OnClose?
    ensures log[j].conn != log[i].conn
  {
    var front := log[..|log| - 1];
    if j < |log| - 1 {
      NothingAfterClose(front, i, j);
    } else {
      ClosedHas(front, i);
      assert front[i] == log[i];
    }
  }
}
