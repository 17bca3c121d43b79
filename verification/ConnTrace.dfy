/** How a connection that is closing goes away, over any run. */
module ConnTrace {
  import opened ConnUid
  import opened ConnState
  import opened ConnSpec

  /** The event is the completion of an operation of slot `s`. */
  predicate Completes(e: Event, s: int)
  {
    (e.ReadLengthCompletes? || e.ReadBodyCompletes? || e.WriteCompletes?) && e.slot == s
  }

  /** The completions of operations of slot `s` that take place from the `i`-th event up to the `j`-th. */
  ghost function Completions(trace: seq<State>, events: seq<Event>, s: int, i: nat, j: nat): nat
    requires i <= j <= |events| && j < |trace|
  {
    if i == j then 0
    else Completions(trace, events, s, i, j - 1) + if Possible(trace[j - 1], events[j - 1]) && Completes(events[j - 1], s) then 1 else 0
  }

  /** The `g`-th connection of slot `s` is closing and waits for `p` completions. */
  ghost predicate Draining(a: State, s: int, g: nat, p: int)
  {
    Sized(a) && 0 <= s < MAX_CONNECTIONS && a.ctl[s].inuse && a.ctl[s].closing && a.gens[s] == g && a.ctl[s].pending == p > 0
  }

  /** The `g`-th connection of slot `s` has been there and is there no longer. */
  ghost predicate Gone(a: State, s: int, g: nat)
  {
    Sized(a) && 0 <= s < MAX_CONNECTIONS && a.gens[s] >= g && (a.ctl[s].inuse ==> a.gens[s] > g)
  }

  lemma DrainingStep(a: State, e: Event, b: State, s: int, g: nat, p: int)
    requires Sound(a) && Sized(b) && 0 <= s < MAX_CONNECTIONS && Possible(a, e) && Leads(a, e, b) && Draining(a, s, g, p)
    ensures Completes(e, s) && p == 1 ==> Gone(b, s, g)
    ensures Completes(e, s) && p > 1 ==> Draining(b, s, g, p - 1)
    ensures !Completes(e, s) ==> Draining(b, s, g, p)
  {
  }

  lemma GoneStep(a: State, e: Event, b: State, s: int, g: nat)
    requires Sound(a) && Sized(b) && 0 <= s < MAX_CONNECTIONS && Possible(a, e) && Leads(a, e, b) && Gone(a, s, g)
    ensures Gone(b, s, g)
  {
    assert Counted(a, s);
  }

  /** A closing connection with `p` operations pending goes with exactly the `p`-th completion of its slot; until then no
      other event changes what it waits for or reopens it, and after that it never comes back. */
  lemma {:induction false} ClosingDrains(trace: seq<State>, events: seq<Event>, s: int, g: nat, p: int, i: nat, j: nat)
    requires Steps(trace, events) && (forall k {:trigger trace[k]} :: 0 <= k < |trace| ==> Sound(trace[k]))
    requires 0 <= s < MAX_CONNECTIONS && i <= j < |trace| && Draining(trace[i], s, g, p)
    ensures Completions(trace, events, s, i, j) < p ==> Draining(trace[j], s, g, p - Completions(trace, events, s, i, j))
    ensures Completions(trace, events, s, i, j) >= p ==> Gone(trace[j], s, g)
  {
    hide Leads, Possible;
    if i < j {
      ClosingDrains(trace, events, s, g, p, i, j - 1);
      var n := Completions(trace, events, s, i, j - 1);
      assert Sound(trace[j - 1]) && Sound(trace[j]);
      if Possible(trace[j - 1], events[j - 1]) {
        if n < p {
          DrainingStep(trace[j - 1], events[j - 1], trace[j], s, g, p - n);
        } else {
          GoneStep(trace[j - 1], events[j - 1], trace[j], s, g);
        }
      }
    }
  }
}
