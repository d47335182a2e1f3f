/**
 The events of a run, driven on the objects: every event that `EthernetRuns` allows is carried out by the
 methods of `EthernetServer` on the pbuf heap, with the same effect on the table. Addresses of new pcbs and
 pbufs are the allocator's choice and come as inputs.
 */
module EthernetDriver {
  import opened EthernetTable
  import opened EthernetOwnership
  import opened EthernetRuns
  import opened Pbufs
  import opened EthernetServer

  // ---- a chain arrives --------------------------------------------------------------------------------

  /** Addresses for a new chain: not NULL, not in use, and all different. */
  ghost predicate NewIds(heap: Heap, ids: seq<nat>) {
    && (forall k | 0 <= k < |ids| :: ids[k] != NULL && ids[k] !in heap)
    && (forall j, k | 0 <= j < k < |ids| :: ids[j] != ids[k])
  }

  /** The heap with a new chain of the given payloads, one reference to each pbuf. */
  function WithChain(heap: Heap, ids: seq<nat>, data: seq<seq<byte>>): Heap
    requires |ids| == |data|
  {
    if ids == [] then heap
    else WithChain(heap, ids[1..], data[1..])[ids[0] := Pbuf(data[0], Head(ids[1..]), TotLen(data), 1)]
  }

  lemma {:induction false} ChainArrives(heap: Heap, ids: seq<nat>, data: seq<seq<byte>>)
    requires |ids| == |data| && NewIds(heap, ids)
    ensures var h := WithChain(heap, ids, data);
            && Chain(h, ids) && Segments(h, ids) == data
            && h.Keys == heap.Keys + (set id | id in ids) && forall id | id in heap :: h[id] == heap[id]
  {
    if ids == [] {
      EmptyChain(heap);
    } else {
      var rest, tail := WithChain(heap, ids[1..], data[1..]), ids[1..];
      ChainArrives(heap, tail, data[1..]);
      assert ids[0] !in tail;
      var h := WithChain(heap, ids, data);
      ChainFrame(rest, h, tail);
      hide TotLen;
      ChainLonger(h, ids, data);
    }
  }

  /** A pbuf in front of a chain. */
  lemma ChainLonger(heap: Heap, ids: seq<nat>, data: seq<seq<byte>>)
    requires ids != [] && |ids| == |data| && ids[0] != NULL && ids[0] in heap && ids[0] !in ids[1..]
    requires Chain(heap, ids[1..]) && Segments(heap, ids[1..]) == data[1..]
    requires heap[ids[0]] == Pbuf(data[0], Head(ids[1..]), TotLen(data), 1)
    ensures Chain(heap, ids) && Segments(heap, ids) == data
  {
    hide TotLen;
    var tail := ids[1..];
    assert Allocated(heap, ids) by {
      forall k | 0 <= k < |ids| ensures ids[k] in heap { assert k > 0 ==> ids[k] == tail[k - 1]; }
    }
    assert Segments(heap, ids) == data by {
      forall k | 0 <= k < |ids| ensures heap[ids[k]].payload == data[k] {
        if k > 0 { assert ids[k] == tail[k - 1] && Segments(heap, tail)[k - 1] == data[1..][k - 1]; }
      }
    }
    forall k: nat | k < |ids|
      ensures LinkedAt(heap, ids, k) && CountsAt(heap, ids, k) && heap[ids[k]].ref == 1
    {
      if k > 0 {
        assert LinkedAt(heap, tail, k - 1) && CountsAt(heap, tail, k - 1) && heap[tail[k - 1]].ref == 1;
        assert tail[k - 1..] == ids[k..] && tail[k..] == ids[k + 1..];
      } else {
        assert ids[0..] == ids;
      }
    }
  }

  /** The arrived chain is lwIP's; the queues of the slots do not notice it. */
  lemma ChainAccounted(heap: Heap, heap': Heap, chains: Chains, home: map<nat, Index>, ids: seq<nat>)
    requires Accounted(heap, chains, home, []) && Chain(heap', ids) && (forall id | id in ids :: id !in heap)
    requires heap'.Keys == heap.Keys + (set id | id in ids) && forall id | id in heap :: heap'[id] == heap[id]
    ensures Accounted(heap', chains, home, ids)
    ensures forall i: Index :: Allocated(heap', chains[i]) && Segments(heap', chains[i]) == Segments(heap, chains[i])
  {
    hide Chain;
    forall i: Index
      ensures Chain(heap', chains[i]) && Allocated(heap', chains[i]) && Segments(heap', chains[i]) == Segments(heap, chains[i])
    {
      ChainAllocated(heap, chains[i]);
      ChainFrame(heap, heap', chains[i]);
      ChainAllocated(heap', chains[i]);
    }
  }

  lemma ChainAllocated(heap: Heap, ids: seq<nat>)
    requires Chain(heap, ids)
    ensures Allocated(heap, ids)
  {
  }

  /** Freeing it gives back the heap as it was. */
  lemma ChainReleased(heap: Heap, chains: Chains, home: map<nat, Index>, ids: seq<nat>)
    requires Accounted(heap, chains, home, ids) && Allocated(heap, ids)
    ensures var heap' := Released(heap, ids, |ids|);
            && Accounted(heap', chains, home, [])
            && forall i: Index :: Allocated(heap', chains[i]) && Segments(heap', chains[i]) == Segments(heap, chains[i])
  {
    var heap' := Released(heap, ids, |ids|);
    hide Chain;
    assert forall id | id in home :: id in heap' && heap'[id] == heap[id];
    EmptyChain(heap');
    forall i: Index
      ensures Chain(heap', chains[i]) && Allocated(heap', chains[i]) && Segments(heap', chains[i]) == Segments(heap, chains[i])
    {
      assert HomedAt(chains[i], home, i);
      ChainFrame(heap, heap', chains[i]);
      ChainAllocated(heap', chains[i]);
    }
  }

  lemma SameTable(clients: Clients, heap: Heap, heap': Heap, chains: Chains)
    requires AllAllocated(heap, chains)
    requires forall i: Index :: Allocated(heap', chains[i]) && Segments(heap', chains[i]) == Segments(heap, chains[i])
    ensures AllAllocated(heap', chains) && TableView(clients, heap', chains) == TableView(clients, heap, chains)
  {
    hide Segments;
    var t, t' := TableView(clients, heap, chains), TableView(clients, heap', chains);
    forall i: Index
      ensures t'[i] == t[i]
    {
    }
  }

  /** lwIP receives a chain: from `Valid([])` to `Valid(ids)`. */
  method Receive(s: Server, ids: seq<nat>, data: seq<seq<byte>>) returns (p: nat)
    requires s.Valid([]) && |ids| == |data| && NewIds(s.heap, ids)
    modifies s`heap
    ensures s.Valid(ids) && s.View() == old(s.View()) && p == Head(ids)
    ensures Allocated(s.heap, ids) && Segments(s.heap, ids) == data
  {
    hide Owned, Chain, WithChain, Homed, Segments, TableView;
    ChainArrives(s.heap, ids, data);
    ghost var before := s.heap;
    s.heap := WithChain(s.heap, ids, data);
    ChainAccounted(before, s.heap, s.chains, s.home, ids);
    SameTable(s.clients, before, s.heap, s.chains);
    ChainAllocated(s.heap, ids);
    return Head(ids);
  }

  /** lwIP frees a chain nobody takes. */
  method Drop(s: Server, p: nat, ghost ids: seq<nat>)
    requires s.Valid(ids) && p == Head(ids) && ids != []
    modifies s`heap
    ensures s.Valid([]) && s.View() == old(s.View())
  {
    hide Owned, Homed, Segments, Linked, CountsAt;
    ghost var before := s.heap;
    ChainFreeable(s.heap, ids);
    s.heap := PbufFree(s.heap, p, ids, |ids|);
    ChainReleased(before, s.chains, s.home, ids);
    SameTable(s.clients, before, s.heap, s.chains);
  }

  // ---- the effect of an event on the table ---------------------------------------------------------------

  /** The network part of a step. */
  function NetStep(net: Net, handles: map<nat, Handle>, e: Event): Net {
    match e
    case Accept(c, port) =>
      var calling := net.(pcbs := net.pcbs[c := NewPcb(port)]);
      if FirstFree(net.clients, 0).None? then calling.(pcbs := calling.pcbs - {c}) else DoAccept(calling, c)
    case Deliver(c, data) =>
      if c in net.pcbs && net.pcbs[c].recv then DoRecv(net, net.pcbs[c].arg, c, data) else net
    case Fin(c, st, r) => if c in net.pcbs then FinNet(net, c, st, r) else net
    case Reset(c) => if c in net.pcbs then ResetNet(net, c) else net
    case SetState(c, st) => if c in net.pcbs then net.(pcbs := net.pcbs[c := net.pcbs[c].(state := st)]) else net
    case Expire(c) => net.(pcbs := net.pcbs - {c})
    case Retry(c, r) => if c in net.pcbs then net.(pcbs := TcpClose(net.pcbs, c, r)) else net
    case AvailableCall(_) => net.(lastClient := ServerAvailable(net).cursor)
    case AcceptCall(_) => (match FirstUnclaimed(net, 0) case None => net case Some(i) => Claim(net, i))
    case Copy(_, _) => net
    case Destroy(_) => net
    case ReadCall(h) => if h in handles then ReadLocked(net, handles[h]) else net
    case StopCall(h, r) => if h in handles then Stop(net, handles[h], r) else net
  }

  function NewPcb(port: nat): Pcb { Pcb(ESTABLISHED, port, ServerArg, false, false, false) }

  function FinNet(net: Net, c: nat, st: TcpState, r: CloseResult): Net
    requires c in net.pcbs
  {
    var moved := net.(pcbs := net.pcbs[c := net.pcbs[c].(state := st)]);
    if moved.pcbs[c].recv then DoClose(moved, moved.pcbs[c].arg, c, r) else moved
  }

  function ResetNet(net: Net, c: nat): Net
    requires c in net.pcbs
  {
    var freed := net.(pcbs := net.pcbs - {c});
    if net.pcbs[c].err then DoErr(freed, net.pcbs[c].arg) else freed
  }

  /** It is what every step of a run does to the network. */
  lemma NetStepIs(w: World, e: Event)
    requires Enabled(w, e)
    ensures Apply(w, e).net == NetStep(w.net, w.handles, e)
  {
    hide DoClose, DoErr, TcpClose, Stop, Unread, Flatten, ScanFrom;
  }

  // ---- lwIP's events on the objects ------------------------------------------------------------------------

  predicate FromLwip(e: Event) {
    e.Accept? || e.Deliver? || e.Fin? || e.Reset? || e.SetState? || e.Expire? || e.Retry?
  }

  /** What lwIP can do next depends on its pcbs alone. */
  predicate Possible(pcbs: map<nat, Pcb>, e: Event)
    requires FromLwip(e)
  {
    match e
    case Accept(c, port) => c != NULL && c !in pcbs && port < U16
    case Deliver(c, data) => c in pcbs && data != []
    case Expire(c) => c in pcbs && !pcbs[c].err
    case Retry(c, _) => c in pcbs && pcbs[c].poll
    case _ => e.c in pcbs
  }

  lemma PossibleIs(w: World, e: Event)
    requires FromLwip(e)
    ensures Enabled(w, e) <==> Possible(w.net.pcbs, e)
  {
  }

  lemma FreshOwned(net: Net, c: nat, port: nat)
    requires Owned(net) && c != NULL && c !in net.pcbs
    ensures var net' := net.(pcbs := net.pcbs[c := NewPcb(port)]); Owned(net') && Fresh(net', c)
  {
    var net' := net.(pcbs := net.pcbs[c := NewPcb(port)]);
    forall j: Index ensures SlotOwned(net', j) { assert SlotOwned(net, j); }
    forall d | d in net'.pcbs ensures PcbOwned(net', d) { assert d != c ==> PcbOwned(net, d); }
  }

  /** A connection comes in; without a free slot lwIP aborts it again. */
  method AcceptOn(s: Server, c: nat, port: nat)
    requires s.Valid([]) && c != NULL && c !in s.pcbs
    modifies s
    ensures s.ValidHeap([]) && (port != 0 ==> s.Valid([]))
    ensures s.View() == NetStep(old(s.View()), map[], Accept(c, port))
  {
    hide Owned, Consistent, Segments, EthernetTable.DoAccept;
    ghost var before := s.View();
    FreshOwned(before, c, port);
    s.pcbs := s.pcbs[c := NewPcb(port)];
    assert s.View() == before.(pcbs := before.pcbs[c := NewPcb(port)]);
    var ok := s.DoAccept(c);
    if !ok {
      NoneFree(before.(pcbs := before.pcbs[c := NewPcb(port)]), c);
      s.pcbs := s.pcbs - {c};
      assert s.pcbs == before.pcbs;
      assert s.View() == before;
    }
  }

  lemma NoneFree(net: Net, c: nat)
    requires c in net.pcbs && FirstFree(net.clients, 0).None?
    ensures EthernetTable.DoAccept(net, c) == net
  {
  }

  method DeliverOn(s: Server, c: nat, ids: seq<nat>, data: seq<seq<byte>>)
    requires s.Valid([]) && c in s.pcbs && data != [] && |ids| == |data| && NewIds(s.heap, ids)
    modifies s
    ensures s.ValidHeap([]) && (NonEmpty(data) ==> s.Valid([]))
    ensures s.View() == NetStep(old(s.View()), map[], Deliver(c, data))
  {
    ghost var before := s.View();
    if s.pcbs[c].recv { RecvOwned(before, c, data); }
    hide Owned, Consistent, Segments;
    var p := Receive(s, ids, data);
    if s.pcbs[c].recv {
      var ok := s.DoRecv(s.pcbs[c].arg, c, p, ids);
    } else {
      Drop(s, p, ids);
    }
  }

  method FinOn(s: Server, c: nat, st: TcpState, r: CloseResult)
    requires s.Valid([]) && c in s.pcbs
    modifies s
    ensures s.Valid([]) && s.View() == NetStep(old(s.View()), map[], Fin(c, st, r))
  {
    ghost var before := s.View();
    PcbStepOwned(before, c, before.pcbs[c := before.pcbs[c].(state := st)]);
    hide Owned, Consistent, Segments, EthernetTable.DoClose;
    s.pcbs := s.pcbs[c := s.pcbs[c].(state := st)];
    assert s.View() == before.(pcbs := before.pcbs[c := before.pcbs[c].(state := st)]);
    if s.pcbs[c].recv {
      s.DoClose(s.pcbs[c].arg, c, r);
    }
  }

  method ResetOn(s: Server, c: nat)
    requires s.Valid([]) && c in s.pcbs
    modifies s
    ensures s.Valid([]) && s.View() == NetStep(old(s.View()), map[], Reset(c))
  {
    ghost var before := s.View();
    ErrOwned(before, c);
    hide Owned, Consistent, Segments;
    s.TcpError(c);
    ghost var after := ResetNet(before, c);
    assert s.View().clients == after.clients by {
      forall i: Index ensures s.View().clients[i] == after.clients[i] { }
    }
  }

  /** A change to one pcb alone. */
  method PcbOn(s: Server, c: nat, pcbs: map<nat, Pcb>)
    requires s.Valid([]) && c in s.pcbs && pcbs - {c} == s.pcbs - {c}
    requires c !in pcbs ==> !s.pcbs[c].err
    requires c in pcbs ==> var p, q := s.pcbs[c], pcbs[c];
               q.arg == p.arg && q.recv == p.recv && q.err == p.err && (q.poll ==> p.poll)
    modifies s`pcbs
    ensures s.Valid([]) && s.View() == old(s.View()).(pcbs := pcbs)
  {
    ghost var before := s.View();
    PcbStepOwned(before, c, pcbs);
    hide Owned, Consistent, Segments;
    s.pcbs := pcbs;
    assert s.View() == before.(pcbs := pcbs);
  }

  /** Any event of lwIP; `ids` are the addresses of a delivered chain. */
  method Lwip(s: Server, e: Event, ids: seq<nat>)
    requires s.Valid([]) && FromLwip(e) && Clean(e)
    requires Possible(s.pcbs, e)
    requires e.Deliver? ==> |ids| == |e.data| && NewIds(s.heap, ids)
    modifies s
    ensures s.Valid([]) && s.View() == NetStep(old(s.View()), map[], e)
  {
    hide NetStep, Owned, Consistent, Segments;
    match e
    case Accept(c, port) => AcceptOn(s, c, port);
    case Deliver(c, data) => DeliverOn(s, c, ids, data);
    case Fin(c, st, r) => FinOn(s, c, st, r);
    case Reset(c) => ResetOn(s, c);
    case _ => OtherOn(s, e);
  }

  method OtherOn(s: Server, e: Event)
    requires s.Valid([]) && (e.SetState? || e.Expire? || e.Retry?)
    requires e.c in s.pcbs && (e.Expire? ==> !s.pcbs[e.c].err) && (e.Retry? ==> s.pcbs[e.c].poll)
    modifies s`pcbs
    ensures s.Valid([]) && s.View() == NetStep(old(s.View()), map[], e)
  {
    ghost var before := s.View();
    if e.Retry? { assert PcbOwned(before, e.c); }
    hide Owned, Consistent, Segments;
    var pcbs := s.pcbs;
    if e.SetState? {
      pcbs := pcbs[e.c := pcbs[e.c].(state := e.state)];
    } else if e.Expire? {
      pcbs := pcbs - {e.c};
    } else {
      pcbs := TcpClose(pcbs, e.c, e.r);
    }
    assert pcbs - {e.c} == s.pcbs - {e.c};
    PcbOn(s, e.c, pcbs);
  }

  // ---- the calls that make handles ----------------------------------------------------------------------

  /** `EthernetServer::available()`. */
  method Available(s: Server) returns (h: EthernetClient)
    requires s.Valid([])
    modifies s
    ensures s.Valid([]) && h.Valid() && fresh(h)
    ensures s.View() == NetStep(old(s.View()), map[], AvailableCall(0))
    ensures h.AsHandle() == MakeHandle(s.View(), ServerAvailable(old(s.View())).found, 0)
    ensures h.cs.SlotOf? ==> h.cs.server == s
  {
    hide Owned, Consistent, Segments, ScanFrom, ServerAvailable;
    var found := s.NextPending();
    h := HandleOn(s, found);
  }

  /** `EthernetServer::accept()`. */
  method AcceptNext(s: Server) returns (h: EthernetClient)
    requires s.Valid([])
    modifies s
    ensures s.Valid([]) && h.Valid() && fresh(h)
    ensures s.View() == NetStep(old(s.View()), map[], AcceptCall(0))
    ensures h.AsHandle() == MakeHandle(s.View(), FirstUnclaimed(old(s.View()), 0), 0)
    ensures h.cs.SlotOf? ==> h.cs.server == s
  {
    hide Owned, Consistent, Segments, FirstUnclaimed;
    var found := s.ClaimNext();
    h := HandleOn(s, found);
  }

  method HandleOn(s: Server, found: EthernetTable.Option<Index>) returns (h: EthernetClient)
    requires s.Valid([])
    ensures h.Valid() && fresh(h) && h.AsHandle() == MakeHandle(s.View(), found, 0)
    ensures h.cs.SlotOf? ==> h.cs.server == s
  {
    hide Owned, Consistent, Segments;
    if found.Some? {
      h := new EthernetClient(s, found.value);
    } else {
      h := new EthernetClient.Empty();
    }
  }
}
