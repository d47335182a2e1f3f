/**
 Round-robin fairness of `EthernetServer::available()` over runs in which anything may happen between
 two calls.
 */
module EthernetFairness {
  import opened EthernetTable
  import opened EthernetOwnership
  import opened EthernetRuns
  import opened EthernetTheorems

  /** How many slots the scan looks at before it reaches slot `t`. */
  function Distance(cursor: Index, t: Index): nat {
    if t > cursor then t - cursor - 1 else t + MAX_CLIENTS - 1 - cursor
  }

  lemma DistanceNext(cursor: Index, t: Index)
    ensures var next := (cursor + 1) % MAX_CLIENTS;
            if t == next then Distance(cursor, t) == 0 else Distance(next, t) == Distance(cursor, t) - 1
    ensures Distance(cursor, t) <= Distance((cursor + 1) % MAX_CLIENTS, t) + 1
  {
  }

  lemma AddOne(cursor: Index, left: nat)
    requires left > 0
    ensures ((cursor + 1) % MAX_CLIENTS + (left - 1)) % MAX_CLIENTS == (cursor + left) % MAX_CLIENTS
  {
  }

  /** The scan stops at the pending slot nearest after the cursor. */
  lemma {:induction false} ScanNearest(net: Net, cursor: Index, left: nat, t: Index)
    requires Distance(cursor, t) < left && Pending(net, t)
    ensures var r := ScanFrom(net, cursor, left);
            && r.found.Some? && Pending(net, r.found.value) && r.cursor == r.found.value
            && Distance(cursor, r.found.value) <= Distance(cursor, t)
            && (r.found.value != t ==> Distance(r.cursor, t) < Distance(cursor, t))
    decreases left
  {
    hide Pending;
    var next: Index := (cursor + 1) % MAX_CLIENTS;
    DistanceNext(cursor, next);
    DistanceNext(cursor, t);
    if !Pending(net, next) {
      ScanNearest(net, next, left - 1, t);
    }
  }

  lemma {:induction false} ScanMisses(net: Net, cursor: Index, left: nat)
    requires left <= MAX_CLIENTS
    requires forall t: Index | Distance(cursor, t) < left :: !Pending(net, t)
    ensures ScanFrom(net, cursor, left) == Scan(None, (cursor + left) % MAX_CLIENTS)
    decreases left
  {
    hide Pending, Distance;
    if left > 0 {
      var next: Index := (cursor + 1) % MAX_CLIENTS;
      DistanceNext(cursor, next);
      forall t: Index | Distance(next, t) < left - 1
        ensures !Pending(net, t)
      {
        DistanceNext(cursor, t);
      }
      ScanMisses(net, next, left - 1);
      AddOne(cursor, left);
    }
  }

  lemma ScanExactly(net: Net)
    ensures ServerAvailable(net).found.Some? <==> exists t: Index :: Pending(net, t)
    ensures ServerAvailable(net).found.Some? ==> Pending(net, ServerAvailable(net).found.value)
    ensures ServerAvailable(net).found.None? ==> ServerAvailable(net).cursor == net.lastClient
  {
    hide Pending, ScanFrom;
    if t: Index :| Pending(net, t) {
      ScanNearest(net, net.lastClient, |net.clients|, t);
    } else {
      ScanMisses(net, net.lastClient, |net.clients|);
    }
  }

  /** An established connection with bytes to read. */
  predicate HasData(net: Net, i: Index) { Established(net, i) && Unread(net.clients[i]) != [] }

  ghost predicate AllShort(net: Net) { forall i: Index :: Short(net.clients[i]) }

  /**
   In every run, with fewer than 65536 bytes in each queue, `available()` returns a handle exactly when some
   established connection has bytes to read; the handle is on such a connection and counts its bytes.
   Otherwise the handle is empty and the cursor stays where it was.
   */
  lemma AvailableFindsExactly(es: seq<Event>, h: nat)
    requires Runs(Initial(), es) && AllClean(es)
    requires var w := Run(Initial(), es); h !in w.handles && AllShort(w.net)
    ensures var w := Run(Initial(), es);
            var w' := Apply(w, AvailableCall(h));
            && h in w'.handles && w'.net.clients == w.net.clients && w'.net.pcbs == w.net.pcbs
            && (w'.handles[h].cs.Shared? <==> exists i: Index :: HasData(w.net, i))
            && (w'.handles[h].cs.Shared? ==>
                  && HasData(w.net, w'.handles[h].cs.slot) && h in w'.made && Current(w', w'.made[h])
                  && Available(w'.net, w'.handles[h]) == |Unread(w.net.clients[w'.handles[h].cs.slot])| > 0)
            && (w'.handles[h].cs.Own? ==> w'.net.lastClient == w.net.lastClient)
  {
    hide Run, Runs;
    Reachable(es);
    FindsAt(Run(Initial(), es), h);
  }

  lemma FindsAt(w: World, h: nat)
    requires Inv(w) && h !in w.handles && AllShort(w.net)
    ensures var w' := Apply(w, AvailableCall(h));
            && h in w'.handles && w'.net.clients == w.net.clients && w'.net.pcbs == w.net.pcbs
            && (w'.handles[h].cs.Shared? <==> exists i: Index :: HasData(w.net, i))
            && (w'.handles[h].cs.Shared? ==>
                  && HasData(w.net, w'.handles[h].cs.slot) && h in w'.made && Current(w', w'.made[h])
                  && Available(w'.net, w'.handles[h]) == |Unread(w.net.clients[w'.handles[h].cs.slot])| > 0)
            && (w'.handles[h].cs.Own? ==> w'.net.lastClient == w.net.lastClient)
  {
    hide Pending, ServerAvailable, Unread, Flatten, Established;
    ScanExactly(w.net);
    forall i: Index
      ensures Pending(w.net, i) <==> HasData(w.net, i)
    {
      PendingIs(w.net, i);
    }
    var found := ServerAvailable(w.net).found;
    if found.Some? {
      var i := found.value;
      assert HasData(w.net, i);
      assert SlotOwned(w.net, i) && SlotStamped(w, i);
      assert w.net.clients[i].cpcb != NULL by { EstablishedPcb(w.net, i); }
      AvailableIsUnread(Apply(w, AvailableCall(h)).net, Apply(w, AvailableCall(h)).handles[h]);
    } else {
      assert forall i: Index :: !HasData(w.net, i);
    }
  }

  lemma EstablishedPcb(net: Net, i: Index)
    requires Owned(net) && Established(net, i)
    ensures net.clients[i].cpcb != NULL
  {
  }

  /** The test of `available()` holds of slot `t` in every world of the run. */
  ghost predicate AlwaysPending(w: World, es: seq<Event>, t: Index)
    requires Runs(w, es)
    decreases |es|
  {
    Pending(w.net, t) && (es != [] ==> AlwaysPending(Apply(w, es[0]), es[1..], t))
  }

  ghost function Calls(es: seq<Event>): nat {
    if es == [] then 0 else (if es[0].AvailableCall? then 1 else 0) + Calls(es[1..])
  }

  ghost predicate Returned(w: World, h: nat, t: Index) { h in w.handles && w.handles[h].cs == Shared(t) }

  /** Some `available()` call of the run returned a handle on slot `t`. */
  ghost predicate Served(w: World, es: seq<Event>, t: Index)
    requires Runs(w, es)
    decreases |es|
  {
    es != [] &&
    (|| (es[0].AvailableCall? && Returned(Apply(w, es[0]), es[0].h, t))
     || Served(Apply(w, es[0]), es[1..], t))
  }

  lemma CursorMoves(w: World, e: Event)
    requires Enabled(w, e)
    ensures Apply(w, e).net.lastClient ==
            if e.AvailableCall? then ServerAvailable(w.net).cursor else w.net.lastClient
  {
  }

  lemma {:induction false} ServedWithin(w: World, es: seq<Event>, t: Index)
    requires Runs(w, es) && AlwaysPending(w, es, t) && Distance(w.net.lastClient, t) < Calls(es)
    ensures Served(w, es, t)
    decreases |es|
  {
    ScanNearest(w.net, w.net.lastClient, |w.net.clients|, t);
    if !(es[0].AvailableCall? && ServerAvailable(w.net).found == Some(t)) {
      CursorMoves(w, es[0]);
      ServedWithin(Apply(w, es[0]), es[1..], t);
    }
  }

  /** Slot `t` holds an established connection with bytes to read in every world of the run. */
  ghost predicate AlwaysData(w: World, es: seq<Event>, t: Index)
    requires Runs(w, es)
    decreases |es|
  {
    HasData(w.net, t) && Short(w.net.clients[t]) && (es != [] ==> AlwaysData(Apply(w, es[0]), es[1..], t))
  }

  lemma {:induction false} DataPending(w: World, es: seq<Event>, t: Index)
    requires Inv(w) && Runs(w, es) && AllClean(es) && AlwaysData(w, es, t)
    ensures AlwaysPending(w, es, t)
    decreases |es|
  {
    hide Apply, Enabled, Pending, HasData, Inv;
    PendingAt(w, t);
    if es != [] {
      StepKeeps(w, es[0]);
      DataPending(Apply(w, es[0]), es[1..], t);
    }
  }

  lemma PendingAt(w: World, t: Index)
    requires Inv(w) && HasData(w.net, t) && Short(w.net.clients[t])
    ensures Pending(w.net, t)
  {
    PendingIs(w.net, t);
  }

  /**
   After every run: a connection that stays established with bytes to read is returned within MAX_CLIENTS
   calls of `available()`, whatever happens to the others.
   */
  lemma RoundRobinFair(before: seq<Event>, es: seq<Event>, t: Index)
    requires Runs(Initial(), before) && AllClean(before)
    requires var w := Run(Initial(), before);
             Runs(w, es) && AllClean(es) && AlwaysData(w, es, t) && Calls(es) >= MAX_CLIENTS
    ensures Served(Run(Initial(), before), es, t)
  {
    hide Run, AlwaysData, AlwaysPending, Served;
    Reachable(before);
    var w := Run(Initial(), before);
    DataPending(w, es, t);
    ServedWithin(w, es, t);
  }
}
