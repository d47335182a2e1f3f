/**
 What holds of every run of the server, from power-up, for every order of lwIP events and sketch steps.
 */
module EthernetTheorems {
  import opened EthernetTable
  import opened EthernetOwnership
  import opened EthernetRuns

  lemma InitialInv()
    ensures Inv(Initial())
  {
    var w := Initial();
    forall i: Index ensures SlotOwned(w.net, i) && SlotStamped(w, i) {
    }
  }

  lemma {:induction false} RunKeeps(w: World, es: seq<Event>)
    requires Inv(w) && Runs(w, es) && AllClean(es)
    ensures Inv(Run(w, es))
    decreases |es|
  {
    if es != [] {
      StepKeeps(w, es[0]);
      RunKeeps(Apply(w, es[0]), es[1..]);
    }
  }

  /** Every reachable world satisfies the invariant. */
  lemma Reachable(es: seq<Event>)
    requires Runs(Initial(), es) && AllClean(es)
    ensures Inv(Run(Initial(), es))
  {
    InitialInv();
    RunKeeps(Initial(), es);
  }

  // ---- handles ------------------------------------------------------------------------------------

  /**
   The exact reach of a handle: in every reachable world it acts on its slot just when the slot's owner
   and the connection it was made for have the same number modulo 65535.
   */
  lemma StaleExactly(es: seq<Event>, h: nat)
    requires Runs(Initial(), es) && AllClean(es)
    requires var w := Run(Initial(), es); h in w.handles && w.handles[h].cs.Shared?
    ensures var w := Run(Initial(), es);
            var i := w.handles[h].cs.slot;
            && h in w.made && w.owner[i].Some?
            && (Acts(w.net, w.handles[h]) <==> w.owner[i].value % STAMPS == w.made[h] % STAMPS)
            && (|w.conns| <= w.made[h] + STAMPS ==> (Stale(w.net, w.handles[h]) <==> w.owner[i].value != w.made[h]))
  {
    Reachable(es);
    var w := Run(Initial(), es);
    var i := w.handles[h].cs.slot;
    assert HandleStamped(w, h) && SlotStamped(w, i);
    if |w.conns| <= w.made[h] + STAMPS {
      SameStamp(w.made[h], w.owner[i].value);
    }
  }

  lemma SameStamp(k: nat, m: nat)
    requires k <= m < k + STAMPS
    ensures Stamp(k) == Stamp(m) <==> k == m
  {
    if k % STAMPS == m % STAMPS {
      assert (m - k) % STAMPS == 0;
    }
  }

  /** The handle was made for a connection that fewer than 65535 accepts have followed. */
  ghost predicate Recent(w: World, h: nat) {
    h in w.made ==> |w.conns| <= w.made[h] + STAMPS
  }

  /** A handle that behaves like a closed one and touches nothing but its own flag. */
  ghost predicate Inert(w: World, h: nat)
    requires h in w.handles
  {
    var x := w.handles[h];
    && Available(w.net, x) == 0 && Peek(w.net, x) == NoData && Status(w.net, x) == CLOSED
    && !Connected(w.net, x)
    && ReadStep(w, h) == w
    && forall r :: StopStep(w, h, r) == w.(handles := w.handles[h := x.(connected := false)])
  }

  /** Everything a handle does is done to connection k: its next byte, its pcb, its slot. */
  ghost predicate Faithful(w: World, h: nat, k: nat)
    requires h in w.handles
  {
    var x := w.handles[h];
    && Current(w, k) && x.cs == Shared(w.conns[k].slot)
    && var i, s := x.cs.slot, w.net.clients[x.cs.slot];
    && s.cpcb in w.carries && w.carries[s.cpcb] == k
    && s.cpcb in w.net.pcbs && Status(w.net, x) == w.net.pcbs[s.cpcb].state
    && w.conns[k].consumed + Unread(s) == w.conns[k].delivered
    && (Short(s) ==>
          && Available(w.net, x) == |Unread(s)| && (Peek(w.net, x) == NoData <==> Unread(s) == [])
          && (Connected(w.net, x) <==> Unread(s) != [] || w.net.pcbs[s.cpcb].state == ESTABLISHED))
    && (Peek(w.net, x) == NoData || (Unread(s) != [] && Peek(w.net, x) == Byte(Unread(s)[0])))
    && (forall j: Index | j != i :: ReadStep(w, h).net.clients[j] == w.net.clients[j])
    && (forall r, j: Index | j != i :: StopStep(w, h, r).net.clients[j] == w.net.clients[j])
    && (forall r, c | c in w.net.pcbs && c != s.cpcb ::
          c in StopStep(w, h, r).net.pcbs && StopStep(w, h, r).net.pcbs[c] == w.net.pcbs[c])
  }

  /**
   Handle isolation over every run: a handle, or any copy of it, made for connection k either acts on
   connection k alone or on nothing at all, while fewer than 65535 accepts have followed k.
   */
  lemma HandleIsolation(es: seq<Event>, h: nat)
    requires Runs(Initial(), es) && AllClean(es)
    requires var w := Run(Initial(), es); h in w.handles && Recent(w, h)
    ensures var w := Run(Initial(), es);
            if h in w.made && Current(w, w.made[h]) then Faithful(w, h, w.made[h])
            else Inert(w, h)
  {
    Reachable(es);
    var w := Run(Initial(), es);
    Isolation(w, h);
  }

  lemma Isolation(w: World, h: nat)
    requires Inv(w) && h in w.handles && Recent(w, h)
    ensures if h in w.made && Current(w, w.made[h]) then Faithful(w, h, w.made[h])
            else Inert(w, h)
  {
    assert HandleStamped(w, h);
    var x := w.handles[h];
    if x.cs.Shared? {
      var i, k := x.cs.slot, w.made[h];
      assert SlotStamped(w, i) && SlotOwned(w.net, i);
      SameStamp(k, w.owner[i].value);
      if Current(w, k) {
        assert ConnOk(w, k);
        IsFaithful(w, h, k);
      } else if w.owner[i].value != k {
        assert Stale(w.net, x);
      } else {
        assert w.net.clients[i].cpcb == NULL;
        assert w.net.clients[i] == StopSlot(w.net.clients[i]);
        assert w.net.clients[i := w.net.clients[i]] == w.net.clients;
      }
    }
  }

  lemma IsFaithful(w: World, h: nat, k: nat)
    requires Inv(w) && h in w.handles && h in w.made && w.made[h] == k && Current(w, k)
    requires w.handles[h].cs == Shared(w.conns[k].slot) && Acts(w.net, w.handles[h])
    ensures Faithful(w, h, k)
  {
    var x := w.handles[h];
    var i := x.cs.slot;
    assert SlotStamped(w, i) && SlotOwned(w.net, i) && ConnOk(w, k);
    AvailableIsUnread(w.net, x);
    if Available(w.net, x) != 0 {
      ReadEffect(w, h);
    }
  }

  // ---- closing ---------------------------------------------------------------------------------------

  /**
   What closing a pcb comes to: it is gone; or it has moved on to state `st` without argument and callbacks;
   or it is left as it was, without argument and callbacks but for the poll callback that will close it again.
   */
  predicate PcbClosed(before: Pcb, pcbs: map<nat, Pcb>, c: nat, r: CloseResult) {
    match r
    case Freed => c !in pcbs
    case Moved(st) => c in pcbs && pcbs[c] == Pcb(st, before.remotePort, NoArg, false, false, false)
    case Failed => c in pcbs && pcbs[c] == Pcb(before.state, before.remotePort, NoArg, false, false, true)
  }

  /** The slot of connection k is free, and nothing else has changed. */
  ghost predicate SlotGivenUp(w: World, w': World, k: nat)
    requires Current(w, k)
  {
    var i := w.conns[k].slot;
    && !Current(w', k) && w'.net.clients[i].port == 0 && w'.net.clients[i].cpcb == NULL && Unread(w'.net.clients[i]) == []
    && (forall j: Index | j != i :: w'.net.clients[j] == w.net.clients[j])
    && (forall d | d != w.net.clients[i].cpcb :: d in w'.net.pcbs <==> d in w.net.pcbs)
    && (forall d | d in w.net.pcbs && d != w.net.clients[i].cpcb :: d in w'.net.pcbs && w'.net.pcbs[d] == w.net.pcbs[d])
  }

  /** `stop()` through a handle on its current connection gives up the slot and closes the connection's pcb. */
  lemma StopCloses(es: seq<Event>, h: nat, r: CloseResult)
    requires Runs(Initial(), es) && AllClean(es)
    requires var w := Run(Initial(), es); h in w.handles && Recent(w, h) && h in w.made && Current(w, w.made[h])
    ensures var w := Run(Initial(), es);
            var c := w.net.clients[w.conns[w.made[h]].slot].cpcb;
            && Enabled(w, StopCall(h, r)) && c in w.net.pcbs
            && var w' := Apply(w, StopCall(h, r));
            && SlotGivenUp(w, w', w.made[h]) && PcbClosed(w.net.pcbs[c], w'.net.pcbs, c, r)
            && h in w'.handles && !w'.handles[h].connected
  {
    hide Run, Runs;
    Reachable(es);
    var w := Run(Initial(), es);
    Isolation(w, h);
    StopClosesAt(w, h, r);
  }

  lemma StopClosesAt(w: World, h: nat, r: CloseResult)
    requires Inv(w) && h in w.handles && h in w.made && Current(w, w.made[h]) && Faithful(w, h, w.made[h])
    ensures var c := w.net.clients[w.conns[w.made[h]].slot].cpcb;
            var w' := StopStep(w, h, r);
            c in w.net.pcbs && SlotGivenUp(w, w', w.made[h]) && PcbClosed(w.net.pcbs[c], w'.net.pcbs, c, r)
  {
    hide Unread, Flatten, Connected, Peek, Available, ReadStep;
    var i := w.conns[w.made[h]].slot;
    var c := w.net.clients[i].cpcb;
    assert SlotOwned(w.net, i) && PcbOwned(w.net, c);
    assert HandleActs(w, h) by { FaithfulActs(w, h); }
    NoneUnread(StopStep(w, h, r).net.clients[i]);
  }

  lemma NoneUnread(s: Slot)
    requires s.segments == []
    ensures Unread(s) == []
  {
  }

  ghost predicate HandleActs(w: World, h: nat) { h in w.handles && Acts(w.net, w.handles[h]) }

  lemma FaithfulActs(w: World, h: nat)
    requires Inv(w) && h in w.handles && h in w.made && Current(w, w.made[h]) && Faithful(w, h, w.made[h])
    ensures HandleActs(w, h)
  {
    assert HandleStamped(w, h) && SlotStamped(w, w.handles[h].cs.slot);
  }

  /** A FIN on the pcb of a current connection, in its new state `st`, does the same. */
  lemma FinCloses(es: seq<Event>, k: nat, st: TcpState, r: CloseResult)
    requires Runs(Initial(), es) && AllClean(es) && Current(Run(Initial(), es), k)
    ensures var w := Run(Initial(), es);
            var c := w.net.clients[w.conns[k].slot].cpcb;
            && c in w.net.pcbs && Enabled(w, Fin(c, st, r))
            && var w' := Apply(w, Fin(c, st, r));
            SlotGivenUp(w, w', k) && PcbClosed(w.net.pcbs[c].(state := st), w'.net.pcbs, c, r)
  {
    hide Run, Runs;
    Reachable(es);
    FinClosesAt(Run(Initial(), es), k, st, r);
  }

  lemma FinClosesAt(w: World, k: nat, st: TcpState, r: CloseResult)
    requires Inv(w) && Current(w, k)
    ensures var c := w.net.clients[w.conns[k].slot].cpcb;
            && c in w.net.pcbs
            && var w' := FinStep(w, c, st, r);
            SlotGivenUp(w, w', k) && PcbClosed(w.net.pcbs[c].(state := st), w'.net.pcbs, c, r)
  {
    hide Unread, Flatten;
    var i := w.conns[k].slot;
    var c := w.net.clients[i].cpcb;
    assert SlotOwned(w.net, i) && PcbOwned(w.net, c);
    NoneUnread(FinStep(w, c, st, r).net.clients[i]);
  }

  /** A fatal error on it gives up the slot; lwIP has freed the pcb. */
  lemma ResetCloses(es: seq<Event>, k: nat)
    requires Runs(Initial(), es) && AllClean(es) && Current(Run(Initial(), es), k)
    ensures var w := Run(Initial(), es);
            var c := w.net.clients[w.conns[k].slot].cpcb;
            && c in w.net.pcbs && Enabled(w, Reset(c))
            && var w' := Apply(w, Reset(c)); SlotGivenUp(w, w', k) && c !in w'.net.pcbs
  {
    hide Run, Runs, Unread, Flatten;
    Reachable(es);
    var w := Run(Initial(), es);
    var i := w.conns[k].slot;
    assert SlotOwned(w.net, i);
    NoneUnread(ResetStep(w, w.net.clients[i].cpcb).net.clients[i]);
  }

  /** A retried close frees the pcb, moves it on, or leaves it for the next retry; no slot is concerned. */
  lemma RetryCloses(w: World, c: nat, r: CloseResult)
    requires Enabled(w, Retry(c, r))
    ensures var w' := Apply(w, Retry(c, r));
            && w'.net.clients == w.net.clients && w'.conns == w.conns
            && match r
               case Freed => c !in w'.net.pcbs
               case Moved(st) => c in w'.net.pcbs && w'.net.pcbs[c].state == st
               case Failed => Enabled(w', Retry(c, r)) && w'.net.pcbs == w.net.pcbs
  {
  }

  // ---- a connection comes in, a handle is copied -----------------------------------------------------------

  /**
   A new connection takes a slot that had no connection, starts with nothing to read and unclaimed, and is the
   only change; without such a slot nothing changes.
   */
  lemma AcceptTakes(es: seq<Event>, c: nat, port: nat)
    requires Runs(Initial(), es) && AllClean(es)
    requires Enabled(Run(Initial(), es), Accept(c, port)) && port != 0
    ensures var w := Run(Initial(), es);
            var w', k := Apply(w, Accept(c, port)), |w.conns|;
            if exists i: Index :: w.net.clients[i].cpcb == NULL then
              && |w'.conns| == k + 1 && Current(w', k) && c in w'.carries && w'.carries[c] == k
              && var i := w'.conns[k].slot;
              && w.net.clients[i].cpcb == NULL && w'.net.clients[i].cpcb == c && Unread(w'.net.clients[i]) == []
              && w'.net.clients[i].port == port && !w'.net.clients[i].claimed && Established(w'.net, i)
              && (forall j: Index | j != i :: w'.net.clients[j] == w.net.clients[j])
            else
              w' == w
  {
    hide Run, Runs;
    Reachable(es);
    AcceptTakesAt(Run(Initial(), es), c, port);
  }

  lemma AcceptTakesAt(w: World, c: nat, port: nat)
    requires Inv(w) && Enabled(w, Accept(c, port)) && port != 0
    ensures var w', k := AcceptStep(w, c, port), |w.conns|;
            if exists i: Index :: w.net.clients[i].cpcb == NULL then
              && |w'.conns| == k + 1 && Current(w', k) && c in w'.carries && w'.carries[c] == k
              && var i := w'.conns[k].slot;
              && w.net.clients[i].cpcb == NULL && w'.net.clients[i].cpcb == c && Unread(w'.net.clients[i]) == []
              && w'.net.clients[i].port == port && !w'.net.clients[i].claimed && Established(w'.net, i)
              && (forall j: Index | j != i :: w'.net.clients[j] == w.net.clients[j])
            else
              w' == w
  {
    hide Unread, Flatten;
    var free := FirstFree(w.net.clients, 0);
    if free.Some? {
      assert SlotOwned(w.net, free.value);
      AcceptedInto(w, c, port, free.value);
      NoneUnread(AcceptStep(w, c, port).net.clients[free.value]);
    } else {
      forall i: Index
        ensures w.net.clients[i].cpcb != NULL
      {
        assert SlotOwned(w.net, i);
      }
      assert AcceptStep(w, c, port).net.pcbs == w.net.pcbs;
    }
  }

  /** A copy behaves as the original, and the original is not affected. */
  lemma CopyBehaves(es: seq<Event>, h: nat, src: nat)
    requires Runs(Initial(), es) && AllClean(es) && src in Run(Initial(), es).handles
    ensures var w := Run(Initial(), es);
            var w' := Apply(w, Copy(h, src));
            && w'.net == w.net && h in w'.handles && src in w'.handles && w'.handles[src] == w.handles[src]
            && var x, y := w.handles[src], w'.handles[h];
            && Available(w.net, y) == Available(w.net, x) && Peek(w.net, y) == Peek(w.net, x)
            && Status(w.net, y) == Status(w.net, x) && (Connected(w.net, y) <==> Connected(w.net, x))
            && (x.cs.Own? ==> y.cs == Own(h)) && (src in w.made ==> h in w'.made && w'.made[h] == w.made[src])
  {
    hide Run, Runs, Front, TotLen;
    Reachable(es);
    assert HandleStamped(Run(Initial(), es), src);
  }

  // ---- streams -------------------------------------------------------------------------------------

  /**
   Byte-stream conservation over every run: what has been read from a connection followed by what is
   still queued is exactly what was delivered to it; once it has ended, what was read followed by what
   was discarded with the queue is.
   */
  lemma StreamConservation(es: seq<Event>, k: nat)
    requires Runs(Initial(), es) && AllClean(es) && k < |Run(Initial(), es).conns|
    ensures var w := Run(Initial(), es);
            var conn := w.conns[k];
            if Current(w, k) then conn.consumed + Unread(w.net.clients[conn.slot]) == conn.delivered
            else conn.consumed + conn.discarded == conn.delivered
  {
    Reachable(es);
    assert ConnOk(Run(Initial(), es), k);
  }

  /**
   A connection leaves its slot through a FIN, a fatal error or a `stop()` only, discards what was unread at
   that step, and so has been read completely exactly when its queue was then empty.
   */
  lemma LostExactly(es: seq<Event>, e: Event, k: nat)
    requires Runs(Initial(), es) && AllClean(es)
    requires var w := Run(Initial(), es); Enabled(w, e) && Clean(e) && Current(w, k) && !Current(Apply(w, e), k)
    ensures var w := Run(Initial(), es);
            && k < |w.conns| && k < |Apply(w, e).conns|
            && var conn', unread := Apply(w, e).conns[k], Unread(w.net.clients[w.conns[k].slot]);
            && (e.Fin? || e.Reset? || e.StopCall?) && conn'.discarded == unread
            && (conn'.consumed == conn'.delivered <==> unread == [])
  {
    hide Run, Runs, Apply, Enabled, Owned, Stamped, Unread;
    Reachable(es);
    var w := Run(Initial(), es);
    LeavesThrough(w, e, k);
    StepKeeps(w, e);
    assert ConnOk(w, k) && ConnOk(Apply(w, e), k);
  }

  lemma LeavesThrough(w: World, e: Event, k: nat)
    requires Inv(w) && Enabled(w, e) && Clean(e) && Current(w, k) && !Current(Apply(w, e), k)
    ensures e.Fin? || e.Reset? || e.StopCall?
    ensures k < |Apply(w, e).conns| && Apply(w, e).conns[k] == w.conns[k].(discarded := Unread(w.net.clients[w.conns[k].slot]))
  {
    hide Unread, Inv, DoClose, DoErr, Stop;
    if !(e.Fin? || e.Reset? || e.StopCall?) { StaysCurrent(w, e, k); }
  }

  lemma StaysCurrent(w: World, e: Event, k: nat)
    requires Inv(w) && Enabled(w, e) && Clean(e) && Current(w, k) && !e.Fin? && !e.Reset? && !e.StopCall?
    ensures Current(Apply(w, e), k)
  {
    hide Inv, Stamped, Owned, ConnsOk, AcceptStep, DeliverStep, ReadStep;
    match e
    case Accept(c, port) => AcceptStays(w, c, port, k);
    case Deliver(c, data) => DeliverStays(w, c, data, k);
    case ReadCall(h) => ReadStays(w, h, k);
    case _ =>
  }

  lemma DeliverStays(w: World, c: nat, data: seq<seq<byte>>, k: nat)
    requires Inv(w) && Enabled(w, Deliver(c, data)) && NonEmpty(data) && Current(w, k)
    ensures Current(DeliverStep(w, c, data), k)
  {
    if w.net.pcbs[c].recv {
      DeliveredTo(w, c, data);
      hide Inv, DeliverStep, Unread, Flatten;
    }
  }

  lemma ReadStays(w: World, h: nat, k: nat)
    requires Inv(w) && h in w.handles && Current(w, k)
    ensures Current(ReadStep(w, h), k)
  {
    if Available(w.net, w.handles[h]) != 0 {
      ReadEffect(w, h);
      assert ConnTook(w, ReadStep(w, h), w.handles[h].cs.slot, w.made[h], k);
      hide Inv, ReadStep, Unread, Peek, ConnTook;
    }
  }

  lemma AcceptStays(w: World, c: nat, port: nat, k: nat)
    requires Inv(w) && Enabled(w, Accept(c, port)) && port != 0 && Current(w, k)
    ensures Current(AcceptStep(w, c, port), k)
  {
    var free := FirstFree(w.net.clients, 0);
    if free.Some? {
      assert SlotOwned(w.net, free.value);
      AcceptedInto(w, c, port, free.value);
      assert AcceptStep(w, c, port).conns[k] == w.conns[k];
    }
  }

  /** A byte that is delivered and not read before the peer closes is lost. */
  lemma FinLosesByte(b: byte)
    ensures var es := [CALL, AcceptCall(0), Deliver(1, [[b]]), HANG_UP];
            && Runs(Initial(), es) && AllClean(es)
            && var w := Run(Initial(), es);
            && |w.conns| == 1 && w.conns[0].delivered == [b] == w.conns[0].discarded && w.conns[0].consumed == []
  {
    hide Runs, Run, Apply, Enabled, Cycled;
    FirstConnection();
    var w0 := Run(Initial(), [CALL, AcceptCall(0)]);
    DeliversByte(w0, b);
    RunTwo(w0, Deliver(1, [[b]]), HANG_UP);
    RunConcat(Initial(), [CALL, AcceptCall(0)], [Deliver(1, [[b]]), HANG_UP]);
    assert [CALL, AcceptCall(0)] + [Deliver(1, [[b]]), HANG_UP] == [CALL, AcceptCall(0), Deliver(1, [[b]]), HANG_UP];
  }

  lemma DeliversByte(w: World, b: byte)
    requires Cycled(w, 0) && w.conns[0].consumed == []
    ensures Enabled(w, Deliver(1, [[b]]))
    ensures var w1 := Apply(w, Deliver(1, [[b]]));
            && Enabled(w1, HANG_UP)
            && var w2 := Apply(w1, HANG_UP);
            && |w2.conns| == 1 && w2.conns[0].delivered == [b] == w2.conns[0].discarded && w2.conns[0].consumed == []
  {
    assert [[b]][1..] == [] && Flatten([[b]]) == [b];
    var w1 := Apply(w, Deliver(1, [[b]]));
    assert w1.net.clients[0].segments == [[b]];
    assert [b][0..] == [b];
    assert Unread(w1.net.clients[0]) == [b];
  }

  // ---- what the code takes for granted ------------------------------------------------------------------

  /**
   Port 0 marks a free slot: after an accept from port 0 the next connection takes the same slot, and a reset
   of the first one closes the second.
   */
  lemma PortZeroCrosses()
    ensures var es := [Accept(1, 0), Accept(2, 80), Reset(1)];
            && Runs(Initial(), es)
            && var w := Run(Initial(), es);
            && |w.conns| == 2 && w.conns[0].slot == w.conns[1].slot == 0
            && 2 in w.net.pcbs && w.net.pcbs[2] == PEER && w.net.clients[0].cpcb == NULL
  {
    var w1 := Apply(Initial(), Accept(1, 0));
    assert w1.net.clients[0] == Slot(0, [], 1, 0, 1, false);
    var w2 := Apply(w1, Accept(2, 80));
    assert w2.net.clients[0] == Slot(80, [], 2, 0, 2, false);
    var w3 := Apply(w2, Reset(1));
    assert w3.net.clients[0] == CloseSlot(w2.net.clients[0]);
    RunTwo(w1, Accept(2, 80), Reset(1));
    hide Apply, Enabled;
    assert [Accept(1, 0), Accept(2, 80), Reset(1)][1..] == [Accept(2, 80), Reset(1)];
  }

  lemma FlattenTwo(x: seq<byte>, y: seq<byte>)
    ensures Flatten([x, y]) == x + y && Flatten([y]) == y
  {
    var a, b := [x, y], [y];
    assert a[1..] == b && b[1..] == [];
    assert Flatten(b) == y + [] && Flatten(a) == x + Flatten(b);
  }

  /** Two pbufs for the first connection. */
  lemma TwoArrive(x: seq<byte>, y: seq<byte>)
    ensures var es := [CALL, AcceptCall(0), Deliver(1, [x, y])];
            && Runs(Initial(), es)
            && var w := Run(Initial(), es);
            && 0 in w.handles && w.handles[0] == Handle(Shared(0), 1, true)
            && w.net.clients[0].generation == 1 && w.net.clients[0].segments == [x, y] && w.net.clients[0].read == 0
  {
    FirstConnection();
    var w, e := Run(Initial(), [CALL, AcceptCall(0)]), Deliver(1, [x, y]);
    hide Runs, Run, Flatten;
    TwoArriveAt(w, x, y);
    RunOne(w, e);
    RunConcat(Initial(), [CALL, AcceptCall(0)], [e]);
    assert [CALL, AcceptCall(0)] + [e] == [CALL, AcceptCall(0), e];
  }

  lemma TwoArriveAt(w: World, x: seq<byte>, y: seq<byte>)
    requires Cycled(w, 0)
    ensures Enabled(w, Deliver(1, [x, y]))
    ensures var w' := Apply(w, Deliver(1, [x, y]));
            && w'.handles == w.handles && w'.net.clients[0] == w.net.clients[0].(segments := [x, y])
  {
    hide Flatten;
    assert w.net.clients[0].segments + [x, y] == [x, y];
    assert Represents(w.net, w.net.pcbs[1].arg, 1);
  }

  /** A chain that starts with an empty pbuf is read outside it. */
  lemma EmptyPbufRead(b: byte)
    ensures var es := [CALL, AcceptCall(0), Deliver(1, [[], [b]])];
            && Runs(Initial(), es)
            && var w := Run(Initial(), es); 0 in w.handles && Peek(w.net, w.handles[0]) == Wild
  {
    TwoArrive([], [b]);
    hide Runs, Run;
    FlattenTwo([], [b]);
  }

  lemma RunOne(w: World, e: Event)
    requires Enabled(w, e)
    ensures Runs(w, [e]) && Run(w, [e]) == Apply(w, e)
  {
    assert [e][1..] == [];
  }

  /** With 65536 bytes queued `available()` says there are none. */
  lemma QueueWraps()
    ensures var half := seq(0x8000, _ => 0);
            var es := [CALL, AcceptCall(0), Deliver(1, [half, half])];
            && Runs(Initial(), es) && AllClean(es)
            && var w := Run(Initial(), es);
            && 0 in w.handles && Available(w.net, w.handles[0]) == 0 && |Unread(w.net.clients[0])| == 65536
  {
    var half: seq<byte> := seq(0x8000, _ => 0);
    TwoArrive(half, half);
    hide Runs, Run;
    FlattenTwo(half, half);
    assert half[0..] == half && [half, half][1..] == [half];
  }

  /** Every `read()` in the run goes through a recent handle. */
  ghost predicate ReadsRecent(w: World, es: seq<Event>)
    requires Runs(w, es)
    decreases |es|
  {
    es != [] ==>
      && (es[0].ReadCall? ==> Recent(w, es[0].h))
      && ReadsRecent(Apply(w, es[0]), es[1..])
  }

  ghost predicate Settled(w: World) {
    forall k: nat | k < |w.conns| :: w.conns[k].received == w.conns[k].consumed
  }

  lemma StepSettles(w: World, e: Event)
    requires Inv(w) && Settled(w) && Enabled(w, e) && Clean(e) && (e.ReadCall? ==> Recent(w, e.h))
    ensures Settled(Apply(w, e))
  {
    if e.ReadCall? && Available(w.net, w.handles[e.h]) != 0 {
      var i := w.handles[e.h].cs.slot;
      ReadEffect(w, e.h);
      Isolation(w, e.h);
      forall m: nat | m < |w.conns|
        ensures ReadStep(w, e.h).conns[m].received == ReadStep(w, e.h).conns[m].consumed
      {
        assert ConnTook(w, ReadStep(w, e.h), i, w.made[e.h], m);
      }
    }
  }

  lemma {:induction false} RunSettles(w: World, es: seq<Event>)
    requires Inv(w) && Settled(w) && Runs(w, es) && AllClean(es) && ReadsRecent(w, es)
    ensures Settled(Run(w, es))
    decreases |es|
  {
    if es != [] {
      StepKeeps(w, es[0]);
      StepSettles(w, es[0]);
      RunSettles(Apply(w, es[0]), es[1..]);
    }
  }

  /**
   End to end: the bytes a sketch obtains through all handles made for connection k, in the order it
   obtains them, are a prefix of the bytes the peer sent on k.
   */
  lemma DeliveredInOrder(es: seq<Event>, k: nat)
    requires Runs(Initial(), es) && AllClean(es) && ReadsRecent(Initial(), es) && k < |Run(Initial(), es).conns|
    ensures var conn := Run(Initial(), es).conns[k]; conn.received <= conn.delivered
  {
    InitialInv();
    RunSettles(Initial(), es);
    StreamConservation(es, k);
  }

  // ---- callbacks hit their own slot ------------------------------------------------------------------

  /**
   The callbacks of pcb `c` in a reachable world: data reaches the slot of the connection `c` carries and
   is never refused, a FIN or a fatal error empties that slot, and no other slot changes.
   */
  lemma CallbacksHitTheirSlot(es: seq<Event>, c: nat, data: seq<seq<byte>>, st: TcpState, r: CloseResult)
    requires Runs(Initial(), es) && AllClean(es)
    requires var w := Run(Initial(), es); c in w.net.pcbs && w.net.pcbs[c].recv
    requires data != [] && NonEmpty(data)
    ensures var w := Run(Initial(), es);
            && w.net.pcbs[c].arg.SlotArg? && c in w.carries && Current(w, w.carries[c])
            && var i, k := w.net.pcbs[c].arg.slot, w.carries[c];
            && w.owner[i] == Some(k) && w.conns[k].slot == i
            && DeliverStep(w, c, data).conns[k].delivered == w.conns[k].delivered + Flatten(data)
            && Unread(DeliverStep(w, c, data).net.clients[i]) == Unread(w.net.clients[i]) + Flatten(data)
            && FinStep(w, c, st, r).net.clients[i] == CloseSlot(w.net.clients[i])
            && ResetStep(w, c).net.clients[i] == CloseSlot(w.net.clients[i])
            && forall j: Index | j != i ::
                 && DeliverStep(w, c, data).net.clients[j] == w.net.clients[j]
                 && FinStep(w, c, st, r).net.clients[j] == w.net.clients[j]
                 && ResetStep(w, c).net.clients[j] == w.net.clients[j]
  {
    Reachable(es);
    var w := Run(Initial(), es);
    assert PcbOwned(w.net, c);
    var i := w.net.pcbs[c].arg.slot;
    assert SlotOwned(w.net, i) && SlotStamped(w, i);
    AppendUnread(w.net.clients[i], data);
  }

  // ---- accept() ------------------------------------------------------------------------------------

  /** `accept()` hands out every connection at most once, over every run and every recycling of its slot. */
  lemma HandedOnce(es: seq<Event>, k: nat)
    requires Runs(Initial(), es) && AllClean(es) && k < |Run(Initial(), es).conns|
    ensures Run(Initial(), es).conns[k].handed <= 1
  {
    Reachable(es);
    assert ConnOk(Run(Initial(), es), k);
  }

  /**
   `accept()` returns a handle on a connection never handed out before, whenever an established one
   exists, and a self-owned handle only when all established connections have been handed out.
   */
  lemma AcceptHandsOver(es: seq<Event>, h: nat)
    requires Runs(Initial(), es) && AllClean(es) && h !in Run(Initial(), es).handles
    ensures var w := Run(Initial(), es);
            var w' := AcceptCallStep(w, h);
            if w'.handles[h].cs.Own? then
              forall i: Index | Established(w.net, i) :: w.owner[i].Some? && w.owner[i].value < |w.conns| && w.conns[w.owner[i].value].handed == 1
            else
              && h in w'.made && w'.made[h] < |w.conns| && Established(w.net, w'.handles[h].cs.slot)
              && Current(w', w'.made[h])
              && w.conns[w'.made[h]].handed == 0 && w'.conns[w'.made[h]].handed == 1
  {
    Reachable(es);
    var w := Run(Initial(), es);
    forall i: Index
      ensures Live(w.net, i) <==> Established(w.net, i)
    {
      LiveIs(w.net, i);
    }
    forall i: Index | Live(w.net, i)
      ensures w.owner[i].Some? && w.owner[i].value < |w.conns| && (w.conns[w.owner[i].value].handed == 1 <==> w.net.clients[i].claimed)
      ensures Current(w, w.owner[i].value) && w.conns[w.owner[i].value].slot == i && w.conns[w.owner[i].value].handed <= 1
    {
      assert SlotStamped(w, i);
      assert ConnOk(w, w.owner[i].value);
    }
    match FirstUnclaimed(w.net, 0)
    case None =>
      forall i: Index | Live(w.net, i)
        ensures w.conns[w.owner[i].value].handed == 1
      {
        assert !Unclaimed(w.net, i);
      }
    case Some(i) =>
      assert Live(w.net, i);
  }

  // ---- the 65535-accept horizon is real ------------------------------------------------------------

  const PEER := Pcb(ESTABLISHED, 80, SlotArg(0), true, true, false)

  /** Slot 0 is held by connection j, and handle 0 was made for connection 0. */
  ghost predicate Cycled(w: World, j: nat) {
    && w.net.clients[0].cpcb == 1 && w.net.clients[0].segments == [] && w.net.clients[0].read == 0
    && w.net.clients[0].generation == w.net.generation == Stamp(j)
    && w.net.pcbs == map[1 := PEER]
    && |w.conns| == j + 1 && w.owner[0] == Some(j) && w.conns[j].delivered == []
    && w.conns[0].delivered == [] && w.conns[0].slot == 0
    && 1 in w.carries && w.carries[1] == j
    && 0 in w.handles && w.handles[0] == Handle(Shared(0), Stamp(0), true)
    && 0 in w.made && w.made[0] == 0
  }

  const HANG_UP := Fin(1, CLOSE_WAIT, Freed)
  const CALL := Accept(1, 80)

  lemma {:induction false} RunConcat(w: World, a: seq<Event>, b: seq<Event>)
    requires Runs(w, a) && Runs(Run(w, a), b)
    ensures Runs(w, a + b) && Run(w, a + b) == Run(Run(w, a), b)
    decreases |a|
  {
    hide Apply, Enabled;
    if a == [] {
      assert a + b == b;
    } else {
      assert (a + b)[1..] == a[1..] + b;
      RunConcat(Apply(w, a[0]), a[1..], b);
    }
  }

  lemma RunTwo(w: World, e: Event, f: Event)
    requires Enabled(w, e) && Enabled(Apply(w, e), f)
    ensures Runs(w, [e, f]) && Run(w, [e, f]) == Apply(Apply(w, e), f)
  {
    assert [e, f][1..] == [f] && [f][1..] == [];
    var w1 := Apply(w, e);
    assert Runs(w1, [f]) && Run(w1, [f]) == Apply(w1, f);
  }

  lemma HungUp(w: World, j: nat)
    requires Cycled(w, j)
    ensures Enabled(w, HANG_UP)
    ensures var w1 := Apply(w, HANG_UP);
            && w1 == w.(net := w1.net, conns := w1.conns) && |w1.conns| == |w.conns|
            && (forall k | 0 <= k < |w.conns| :: w1.conns[k].slot == w.conns[k].slot && w1.conns[k].delivered == w.conns[k].delivered)
            && w1.net.generation == w.net.generation && w1.net.pcbs == map[]
            && w1.net.clients[0].port == 0
  {
  }

  lemma CalledAgain(w: World, j: nat)
    requires w.net.clients[0].port == 0 && w.net.pcbs == map[] && w.net.generation == Stamp(j)
    requires |w.conns| == j + 1 && w.conns[0].delivered == [] && w.conns[0].slot == 0
    requires 0 in w.handles && w.handles[0] == Handle(Shared(0), Stamp(0), true) && 0 in w.made && w.made[0] == 0
    ensures Enabled(w, CALL) && Cycled(Apply(w, CALL), j + 1)
  {
    NextStamp(j);
    var w' := Apply(w, CALL);
    assert w'.conns[0] == w.conns[0];
    assert w'.net.pcbs == map[1 := PEER];
  }

  lemma OneCycle(w: World, j: nat)
    requires Cycled(w, j)
    ensures Runs(w, [HANG_UP, CALL]) && Cycled(Run(w, [HANG_UP, CALL]), j + 1)
  {
    HungUp(w, j);
    CalledAgain(Apply(w, HANG_UP), j);
    RunTwo(w, HANG_UP, CALL);
  }

  lemma {:induction false} Cycles(w: World, j: nat, n: nat) returns (es: seq<Event>)
    requires Cycled(w, j)
    ensures Runs(w, es) && Cycled(Run(w, es), j + n)
    decreases n
  {
    if n == 0 {
      es := [];
    } else {
      OneCycle(w, j);
      var rest := Cycles(Run(w, [HANG_UP, CALL]), j + 1, n - 1);
      RunConcat(w, [HANG_UP, CALL], rest);
      es := [HANG_UP, CALL] + rest;
    }
  }

  lemma FirstConnection()
    ensures Runs(Initial(), [CALL, AcceptCall(0)])
    ensures Cycled(Run(Initial(), [CALL, AcceptCall(0)]), 0)
    ensures Run(Initial(), [CALL, AcceptCall(0)]).conns[0].consumed == []
  {
    var w := Apply(Initial(), CALL);
    assert w.net.clients[0] == Slot(80, [], 1, 0, 1, false) && w.net.pcbs == map[1 := PEER];
    assert Unclaimed(w.net, 0);
    RunTwo(Initial(), CALL, AcceptCall(0));
  }

  lemma ByteArrives(w: World, j: nat, b: byte)
    requires Cycled(w, j) && 0 < j && Stamp(j) == Stamp(0)
    ensures Runs(w, [Deliver(1, [[b]])])
    ensures var w' := Run(w, [Deliver(1, [[b]])]);
            && |w'.conns| == j + 1 && 0 in w'.handles && 0 in w'.made && w'.made[0] == 0
            && w'.conns[0].delivered == [] && w'.conns[j].delivered == [b]
            && !Stale(w'.net, w'.handles[0]) && Peek(w'.net, w'.handles[0]) == Byte(b)
  {
    assert [[b]][1..] == [] && Flatten([[b]]) == [b];
    var e := Deliver(1, [[b]]);
    var w' := Apply(w, e);
    assert [e][1..] == [] && Runs(w', []);
    assert w'.net.clients[0].segments == [[b]];
  }

  /**
   With exactly 65535 accepts after connection 0 the bound is reached: a run exists in which a handle made
   for connection 0, to which nothing was ever sent, reads a byte sent on connection 65535.
   */
  lemma StampsComeRound(b: byte) returns (es: seq<Event>)
    ensures Runs(Initial(), es)
    ensures var w := Run(Initial(), es);
            && |w.conns| == 65536 && 0 in w.handles && 0 in w.made && w.made[0] == 0
            && w.conns[0].delivered == [] && w.conns[65535].delivered == [b]
            && !Stale(w.net, w.handles[0]) && Peek(w.net, w.handles[0]) == Byte(b)
  {
    FirstConnection();
    var start := Run(Initial(), [CALL, AcceptCall(0)]);
    var rest := Cycles(start, 0, STAMPS);
    ByteArrives(Run(start, rest), STAMPS, b);
    RunConcat(start, rest, [Deliver(1, [[b]])]);
    es := [CALL, AcceptCall(0)] + (rest + [Deliver(1, [[b]])]);
    RunConcat(Initial(), [CALL, AcceptCall(0)], rest + [Deliver(1, [[b]])]);
  }
}
