/** Starting and retrying operations, closing and aborting (src/server/iocp_connmgr.c). */
module ConnIo {
  import opened Options
  import opened ConnUid
  import opened ConnState
  import opened ConnTable

  /** The connection in `s` keeps its identity, protocol and buffer; only its operations and flags changed. */
  twostate predicate Tuned(v: Server, s: int)
    reads v, v.ctl
  {
    && v.Sized() && 0 <= s < MAX_CONNECTIONS && old(v.ctl[s]).inuse
    && (forall x {:trigger v.ctl[x]} :: 0 <= x < MAX_CONNECTIONS && x != s ==> v.ctl[x] == old(v.ctl[x]))
    && v.ctl[s].inuse && v.ctl[s].uid == old(v.ctl[s]).uid && v.ctl[s].proto == old(v.ctl[s]).proto && v.ctl[s].firstMsg == old(v.ctl[s]).firstMsg
    && (v.ctl[s].udata == old(v.ctl[s]).udata || (v.ctl[s].udata.Handle? && old(v.ctl[s]).udata.Handle?))
    && v.rd - {s} == old(v.rd) - {s} && v.wr - {s} == old(v.wr) - {s}
    && v.freelist == old(v.freelist) && v.free == old(v.free) && v.log == old(v.log) && v.pool == old(v.pool) && v.owner == old(v.owner)
    && v.nextUnused == old(v.nextUnused) && v.gens == old(v.gens)
    && v.nextBuf == old(v.nextBuf) && v.logins == old(v.logins) && v.nextLogin == old(v.nextLogin) && v.dbQueue == old(v.dbQueue)
    && v.dbTask == old(v.dbTask) && v.serverQueue == old(v.serverQueue) && v.serverTask == old(v.serverTask) && v.home == old(v.home) && v.place == old(v.place)
  }

  twostate lemma TunedOthers(v: Server, new s: int, new x: int)
    requires old(v.Table()) && Tuned(v, s) && 0 <= x < MAX_CONNECTIONS && x != s
    ensures v.SlotOk(x) && (old(v.Settled(x)) ==> v.Settled(x))
  {
    assert old(v.SlotOk(x));
    assert (x in v.rd) == (x in v.rd - {s}) == (x in old(v.rd) - {s}) == (x in old(v.rd));
    assert (x in v.wr) == (x in v.wr - {s}) == (x in old(v.wr) - {s}) == (x in old(v.wr));
    if x in v.rd {
      assert v.rd[x] == (v.rd - {s})[x] == (old(v.rd) - {s})[x] == old(v.rd)[x];
    }
    if x in v.wr {
      assert v.wr[x] == (v.wr - {s})[x] == (old(v.wr) - {s})[x] == old(v.wr)[x];
    }
  }

  twostate lemma TunedTable(v: Server, new s: int, new t: int)
    requires old(v.Inv(t)) && Tuned(v, s) && v.SlotOk(s)
    ensures v.Table()
    ensures t == s || t == -1 ==> v.SettledBut(s)
  {
    forall x | 0 <= x < MAX_CONNECTIONS
      ensures v.SlotOk(x)
      ensures x != s && x != t ==> v.Settled(x)
    {
      if x != s {
        TunedOthers(v, s, x);
        if x != t {
          assert old(v.Settled(x));
        }
      }
    }
    forall x | x in v.rd ensures 0 <= x < MAX_CONNECTIONS {
      if x != s {
        assert x in v.rd - {s};
        assert x in old(v.rd);
      }
    }
    forall x | x in v.wr ensures 0 <= x < MAX_CONNECTIONS {
      if x != s {
        assert x in v.wr - {s};
        assert x in old(v.wr);
      }
    }
    ListKept(v);
  }

  twostate lemma TunedRest(v: Server, new s: int, new t: int)
    requires old(v.Inv(t)) && Tuned(v, s)
    ensures v.Logged() && v.Pooled() && v.Logins() && v.Queued()
  {
    assert forall c {:trigger v.Live(c)} :: v.Live(c) == old(v.Live(c));
    forall b {:trigger v.Owned(b)} | b in v.owner ensures v.Owned(b) {
      assert old(v.Owned(b));
    }
    forall l {:trigger v.LoginOk(l)} | l in v.logins ensures v.LoginOk(l) {
      assert old(v.LoginOk(l));
    }
  }

  /** A changed slot that is in order again restores everything but its flags. */
  twostate lemma TunedInv(v: Server, new s: int, new t: int)
    requires old(v.Inv(t)) && (t == s || t == -1) && Tuned(v, s) && v.SlotOk(s)
    ensures v.Inv(s)
  {
    TunedTable(v, s, t);
    TunedRest(v, s, t);
  }

  lemma FreedUidDiffers(v: Server, s: int)
    requires v.Table() && 0 <= s < v.nextUnused && !v.ctl[s].inuse
    ensures Lo(v.ctl[s].uid) != s
  {
    assert v.Placed(s);
    var i :| 0 <= i < |v.free| && v.free[i] == s;
    assert v.Link(i);
    if i + 1 < |v.free| {
      assert v.free[i + 1] != v.free[i];
    }
  }

  /** An issued identifier is accepted exactly when its slot is in use by that allocation, or by one a multiple
      of 65536 allocations later. */
  lemma LookupIsLive(v: Server, s: int, g: nat)
    requires v.Table() && 0 <= s < MAX_CONNECTIONS && 0 < g <= v.gens[s]
    ensures v.ctl[s].uid == UidOf(s, g) <==> v.ctl[s].inuse && SameTurn(v.gens[s], g)
  {
    assert v.SlotOk(s);
    if !v.ctl[s].inuse {
      FreedUidDiffers(v, s);
    }
    UidMatches(v.ctl[s].uid, v.ctl[s].inuse, s, v.gens[s], g);
  }

  /** internal_start_async_read; `ok` is what the system answers. */
  method StartRead(v: Server, s: int, body: bool, ok: bool)
    requires v.Inv(s) && 0 <= s < MAX_CONNECTIONS && v.ctl[s].inuse && s !in v.rd && v.ctl[s].proto != Some(Login)
    requires body ==> 0 < v.ctl[s].bodylen <= INPUT_BUFFER_SIZE
    modifies v`rd, v.ctl
    ensures v.Inv(s) && Tuned(v, s)
    ensures v.ctl[s] == if ok then old(v.ctl[s]).(pending := old(v.ctl[s]).pending + 1) else old(v.ctl[s])
    ensures v.rd == if ok then old(v.rd)[s := ReadOp(v.gens[s], body)] else old(v.rd)
    ensures !ok ==> unchanged(v) && unchanged(v.ctl)
    ensures old(v.Settled(s)) ==> v.Settled(s)
  {
    assert v.SlotOk(s);
    if ok {
      v.ctl[s] := v.ctl[s].(pending := v.ctl[s].pending + 1);
      v.rd := v.rd[s := ReadOp(v.gens[s], body)];
    }
    TunedInv(v, s, s);
  }

  /** internal_start_async_write, on the data the connection points at. */
  method StartWrite(v: Server, s: int, ok: bool)
    requires v.Sized() && 0 <= s < MAX_CONNECTIONS
    modifies v`wr, v.ctl
    ensures forall x {:trigger v.ctl[x]} :: 0 <= x < MAX_CONNECTIONS && x != s ==> v.ctl[x] == old(v.ctl[x])
    ensures v.ctl[s] == if ok then old(v.ctl[s]).(output := true, pending := old(v.ctl[s]).pending + 1) else old(v.ctl[s])
    ensures v.wr == if ok then old(v.wr)[s := WriteOp(v.gens[s], v.ctl[s].outputData)] else old(v.wr)
  {
    if ok {
      v.ctl[s] := v.ctl[s].(output := true, pending := v.ctl[s].pending + 1);
      v.wr := v.wr[s := WriteOp(v.gens[s], v.ctl[s].outputData)];
    }
  }

  /** internal_close and internal_abort: at once when nothing is pending, otherwise when the last operation completes. */
  method StartClose(v: Server, s: int)
    requires v.Inv(s) && 0 <= s < MAX_CONNECTIONS && v.ctl[s].inuse
    modifies v`pool, v`owner, v`log, v`freelist, v`free, v.ctl
    ensures v.Valid()
    ensures OthersKept(v, s) && Shut(v, s, old(v.ctl[s]), old(v.log))
    ensures if old(v.ctl[s]).pending == 0 && Held(old(v.ctl[s])).Some? then Released(v, Held(old(v.ctl[s])).value) else v.pool == old(v.pool) && v.owner == old(v.owner)
  {
    assert v.SlotOk(s);
    if v.ctl[s].pending == 0 {
      CloseOperation(v, s);
    } else {
      v.ctl[s] := v.ctl[s].(closing := true);
      TunedInv(v, s, s);
      assert v.Settled(s);
    }
  }

  /** internal_async_read: five attempts, then the connection is aborted. `fails` attempts fail. */
  method AsyncRead(v: Server, s: int, body: bool, fails: nat)
    requires v.Valid() && 0 <= s < MAX_CONNECTIONS && v.ctl[s].inuse && s !in v.rd && v.ctl[s].proto != Some(Login)
    requires body ==> 0 < v.ctl[s].bodylen <= INPUT_BUFFER_SIZE
    modifies v`rd, v`pool, v`owner, v`log, v`freelist, v`free, v.ctl
    ensures v.Valid()
    ensures fails < RETRIES ==> v.log == old(v.log) && v.ctl[s] == old(v.ctl[s]).(pending := old(v.ctl[s]).pending + 1) && v.rd == old(v.rd)[s := ReadOp(v.gens[s], body)]
    ensures OthersKept(v, s) && (fails >= RETRIES ==> v.rd == old(v.rd) && Shut(v, s, old(v.ctl[s]), old(v.log)))
  {
    assert v.Settled(s);
    for i := 0 to RETRIES
      invariant i <= fails
      invariant unchanged(v) && unchanged(v.ctl)
    {
      StartRead(v, s, body, i >= fails);
      if i >= fails {
        assert v.Settled(s);
        return;
      }
    }
    StartClose(v, s);
  }

  /** connection_send; `ok` is what the system answers. */
  method ConnectionSend(v: Server, uid: int, data: UserData, ok: bool) returns (sent: bool)
    requires v.Sized() && 0 <= Lo(uid) < MAX_CONNECTIONS
    modifies v`wr, v.ctl
    ensures sent <==> old(v.ctl[Lo(uid)]).uid == uid && !old(v.ctl[Lo(uid)]).output && ok
    ensures forall x {:trigger v.ctl[x]} :: 0 <= x < MAX_CONNECTIONS && x != Lo(uid) ==> v.ctl[x] == old(v.ctl[x])
    ensures sent ==> v.ctl[Lo(uid)] == old(v.ctl[Lo(uid)]).(outputData := data, output := true, pending := old(v.ctl[Lo(uid)]).pending + 1)
    ensures sent ==> v.wr == old(v.wr)[Lo(uid) := WriteOp(v.gens[Lo(uid)], data)]
    ensures !sent ==> v.wr == old(v.wr)
    ensures !sent ==> v.ctl[Lo(uid)] == if old(v.ctl[Lo(uid)]).uid == uid && !old(v.ctl[Lo(uid)]).output then old(v.ctl[Lo(uid)]).(outputData := data) else old(v.ctl[Lo(uid)])
  {
    var s := Lo(uid);
    if v.ctl[s].uid != uid {
      return false;
    }
    if v.ctl[s].output {
      return false;
    }
    v.ctl[s] := v.ctl[s].(outputData := data);
    StartWrite(v, s, ok);
    return ok;
  }

  /** The bookkeeping every completion handler starts with. */
  method ReadCompleted(v: Server, s: int)
    requires v.Valid() && s in v.rd
    modifies v`rd, v.ctl
    ensures v.Inv(s) && OthersKept(v, s) && 0 <= s < MAX_CONNECTIONS && v.ctl[s].inuse
    ensures v.ctl[s] == old(v.ctl[s]).(pending := old(v.ctl[s]).pending - 1, rdwr := old(v.ctl[s]).rdwr + if old(v.rd)[s].body then 1 else 0)
    ensures s !in v.rd && v.wr == old(v.wr) && v.ctl[s].proto != Some(Login)
    ensures old(v.rd)[s].body ==> 0 < v.ctl[s].bodylen <= INPUT_BUFFER_SIZE
    ensures !v.ctl[s].closing ==> v.Valid()
  {
    assert v.SlotOk(s) && v.Settled(s);
    v.ctl[s] := v.ctl[s].(pending := v.ctl[s].pending - 1, rdwr := v.ctl[s].rdwr + if v.rd[s].body then 1 else 0);
    v.rd := v.rd - {s};
    TunedInv(v, s, -1);
    if !v.ctl[s].closing {
      assert v.Settled(s);
    }
  }

  method SetBodylen(v: Server, s: int, bodylen: nat)
    requires v.Valid() && 0 <= s < MAX_CONNECTIONS && v.ctl[s].inuse && s !in v.rd
    modifies v.ctl
    ensures v.Valid() && OthersKept(v, s) && v.ctl[s] == old(v.ctl[s]).(bodylen := bodylen)
  {
    assert v.SlotOk(s) && v.Settled(s);
    v.ctl[s] := v.ctl[s].(bodylen := bodylen);
    TunedInv(v, s, -1);
    assert v.Settled(s);
  }

  method WriteCompleted(v: Server, s: int)
    requires v.Valid() && s in v.wr
    modifies v`wr, v.ctl
    ensures v.Inv(s) && OthersKept(v, s) && 0 <= s < MAX_CONNECTIONS && v.ctl[s].inuse
    ensures v.ctl[s] == old(v.ctl[s]).(pending := old(v.ctl[s]).pending - 1, rdwr := old(v.ctl[s]).rdwr + 1)
    ensures s !in v.wr && v.ctl[s].output && v.ctl[s].proto.Some?
    ensures old(v.wr)[s] == WriteOp(v.gens[s], v.ctl[s].outputData)
    ensures v.ctl[s].proto == Some(Login) ==> v.ctl[s].udata.Buf? && v.ctl[s].outputData == v.ctl[s].udata
    ensures v.ctl[s].proto == Some(Echo) ==> v.ctl[s].udata == Handle(false)
    ensures v.ctl[s].proto != Some(Login) ==> !v.ctl[s].outputData.Buf?
  {
    assert v.SlotOk(s);
    v.ctl[s] := v.ctl[s].(pending := v.ctl[s].pending - 1, rdwr := v.ctl[s].rdwr + 1);
    v.wr := v.wr - {s};
    TunedInv(v, s, -1);
  }

  /** The tail of a handler that found the connection closing: the last completion closes it. */
  method FinishClosing(v: Server, s: int)
    requires v.Inv(s) && 0 <= s < MAX_CONNECTIONS && v.ctl[s].inuse && v.ctl[s].closing
    modifies v`pool, v`owner, v`log, v`freelist, v`free, v.ctl
    ensures v.Valid()
    ensures OthersKept(v, s) && Shut(v, s, old(v.ctl[s]), old(v.log))
  {
    assert v.SlotOk(s);
    if v.ctl[s].pending == 0 {
      CloseOperation(v, s);
    } else {
      assert v.Settled(s);
    }
  }

  /** internal_async_write: the same data again, five attempts. */
  method AsyncWrite(v: Server, s: int, fails: nat)
    requires v.Inv(s) && 0 <= s < MAX_CONNECTIONS && v.ctl[s].inuse && !v.ctl[s].closing && s !in v.wr && v.ctl[s].proto.Some?
    requires v.ctl[s].proto == Some(Login) ==> v.ctl[s].udata.Buf? && v.ctl[s].outputData == v.ctl[s].udata
    requires v.ctl[s].proto == Some(Echo) ==> v.ctl[s].udata == Handle(false)
    requires v.ctl[s].proto != Some(Login) ==> !v.ctl[s].outputData.Buf?
    modifies v`wr, v`pool, v`owner, v`log, v`freelist, v`free, v.ctl
    ensures v.Valid()
    ensures fails < RETRIES ==> v.log == old(v.log) && v.ctl[s] == old(v.ctl[s]).(output := true, pending := old(v.ctl[s]).pending + 1)
    ensures fails < RETRIES ==> v.wr == old(v.wr)[s := WriteOp(v.gens[s], v.ctl[s].outputData)]
    ensures OthersKept(v, s) && (fails >= RETRIES ==> v.wr == old(v.wr) && Shut(v, s, old(v.ctl[s]), old(v.log)))
  {
    assert v.SlotOk(s);
    for i := 0 to RETRIES
      invariant i <= fails
      invariant unchanged(v) && unchanged(v.ctl)
    {
      if i >= fails {
        StartWrite(v, s, true);
        TunedInv(v, s, s);
        assert v.Settled(s);
        return;
      }
    }
    StartClose(v, s);
  }
}
