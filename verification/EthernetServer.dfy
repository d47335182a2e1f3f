/**
 `EthernetServer` and `EthernetClient` as objects over lwIP's pbuf heap. Every method is proved to act on
 the heap as the function of the same name in `EthernetTable` acts on byte sequences, to touch allocated
 pbufs and pcbs only, and to leave allocated exactly the pbufs that are still queued in some slot.
 */
module EthernetServer {
  import opened EthernetTable
  import opened EthernetOwnership
  import opened Pbufs

  datatype Client = Client(port: nat, p: nat, cpcb: nat, read: nat, generation: nat, claimed: bool)

  type Clients = s: seq<Client> | |s| == MAX_CLIENTS witness seq(MAX_CLIENTS, _ => Client(0, 0, 0, 0, 0, false))

  ghost function SlotView(c: Client, heap: Heap, ids: seq<nat>): Slot
    requires Allocated(heap, ids)
  {
    Slot(c.port, Segments(heap, ids), c.cpcb, c.read, c.generation, c.claimed)
  }

  ghost predicate AllAllocated(heap: Heap, chains: Chains) {
    forall i: Index :: Allocated(heap, chains[i])
  }

  ghost function TableView(clients: Clients, heap: Heap, chains: Chains): (t: Table)
    requires AllAllocated(heap, chains)
    ensures forall i: Index :: t[i] == SlotView(clients[i], heap, chains[i])
  {
    seq(MAX_CLIENTS, i requires 0 <= i < MAX_CLIENTS => SlotView(clients[i], heap, chains[i]))
  }

  /** One slot's fields and queue have changed; the table changes at that slot alone. */
  lemma TableUpdated(clients: Clients, heap: Heap, chains: Chains, clients': Clients, heap': Heap, chains': Chains, i: Index)
    requires AllAllocated(heap, chains) && AllAllocated(heap', chains')
    requires clients' == clients[i := clients'[i]] && chains' == chains[i := chains'[i]]
    requires forall j: Index | j != i :: Allocated(heap', chains[j]) && Segments(heap', chains[j]) == Segments(heap, chains[j])
    ensures TableView(clients', heap', chains') == TableView(clients, heap, chains)[i := SlotView(clients'[i], heap', chains'[i])]
  {
    var t, t' := TableView(clients, heap, chains), TableView(clients', heap', chains');
    forall j: Index
      ensures t'[j] == t[i := SlotView(clients'[i], heap', chains'[i])][j]
    {
      if j != i { assert clients'[j] == clients[j] && chains'[j] == chains[j]; }
    }
  }

  /** The slots' pointers and lists of pbufs account for the whole heap, up to the list `extra`. */
  ghost predicate Consistent(clients: Clients, heap: Heap, chains: Chains, home: map<nat, Index>, extra: seq<nat>) {
    && Accounted(heap, chains, home, extra)
    && forall i: Index :: clients[i].p == Head(chains[i])
  }

  lemma QueueFacts(clients: Clients, heap: Heap, chains: Chains, home: map<nat, Index>, extra: seq<nat>, i: Index)
    requires Consistent(clients, heap, chains, home, extra)
    ensures AllAllocated(heap, chains) && Chain(heap, chains[i]) && clients[i].p == Head(chains[i])
    ensures clients[i].p == NULL <==> chains[i] == []
  {
    NullHead(heap, chains[i]);
  }

  /** The queue of slot `i` has been released. */
  lemma QueueFreed(clients: Clients, heap: Heap, chains: Chains, home: map<nat, Index>, extra: seq<nat>, i: Index,
                   clients': Clients, heap': Heap, chains': Chains)
    requires Consistent(clients, heap, chains, home, extra) && AllAllocated(heap, chains)
    requires clients' == clients[i := clients'[i]] && clients'[i].p == NULL
    requires heap' == Released(heap, chains[i], |chains[i]|) && chains' == chains[i := []]
    ensures Consistent(clients', heap', chains', Rehome(home, i, []), extra) && AllAllocated(heap', chains')
    ensures TableView(clients', heap', chains') == TableView(clients, heap, chains)[i := SlotView(clients'[i], heap', [])]
    ensures Segments(heap', []) == []
  {
    hide Chain, Homed, Released, Rehome;
    Emptied(heap, heap', chains, home, extra, i, chains');
    assert AllAllocated(heap', chains') by {
      forall j: Index ensures Allocated(heap', chains'[j]) { }
    }
    TableUpdated(clients, heap, chains, clients', heap', chains', i);
  }

  /** The list `extra` has joined the queue of slot `i`. */
  lemma QueueGrown(clients: Clients, heap: Heap, chains: Chains, home: map<nat, Index>, extra: seq<nat>, i: Index,
                   clients': Clients, heap': Heap, chains': Chains)
    requires Consistent(clients, heap, chains, home, extra) && AllAllocated(heap, chains) && extra != []
    requires if chains[i] == [] then heap' == heap else Joined(heap, heap', chains[i], extra[0])
    requires clients' == clients[i := clients'[i]] && clients'[i].p == Head(chains'[i])
    requires chains' == chains[i := chains[i] + extra]
    ensures Consistent(clients', heap', chains', Rehome(home, i, chains[i] + extra), []) && AllAllocated(heap', chains')
    ensures TableView(clients', heap', chains') == TableView(clients, heap, chains)[i := SlotView(clients'[i], heap', chains'[i])]
    ensures Segments(heap', chains'[i]) == Segments(heap, chains[i]) + Segments(heap, extra)
  {
    hide Chain, Homed, Joined, Rehome;
    Appended(heap, heap', chains, home, extra, i, chains');
    assert AllAllocated(heap', chains') by {
      forall j: Index ensures Allocated(heap', chains'[j]) { }
    }
    TableUpdated(clients, heap, chains, clients', heap', chains', i);
  }

  /** The first pbuf of slot `i` has been freed. */
  lemma QueuePopped(clients: Clients, heap: Heap, chains: Chains, home: map<nat, Index>, i: Index,
                    clients': Clients, heap': Heap, chains': Chains)
    requires Consistent(clients, heap, chains, home, []) && AllAllocated(heap, chains) && chains[i] != []
    requires heap' == heap - {chains[i][0]} && chains' == chains[i := chains[i][1..]]
    requires clients' == clients[i := clients'[i]] && clients'[i].p == Head(chains'[i])
    ensures Consistent(clients', heap', chains', Rehome(home, i, chains[i][1..]), []) && AllAllocated(heap', chains')
    ensures TableView(clients', heap', chains') == TableView(clients, heap, chains)[i := SlotView(clients'[i], heap', chains'[i])]
    ensures Segments(heap', chains'[i]) == Segments(heap, chains[i])[1..]
  {
    hide Chain, Homed, Rehome;
    Popped(heap, heap', chains, home, i, chains');
    assert AllAllocated(heap', chains') by {
      forall j: Index ensures Allocated(heap', chains'[j]) { }
    }
    TableUpdated(clients, heap, chains, clients', heap', chains', i);
  }

  /** A change to the other fields of slot `i`. */
  lemma FieldsChanged(clients: Clients, heap: Heap, chains: Chains, home: map<nat, Index>, extra: seq<nat>, i: Index,
                      clients': Clients)
    requires Consistent(clients, heap, chains, home, extra) && AllAllocated(heap, chains)
    requires clients' == clients[i := clients'[i]] && clients'[i].p == clients[i].p
    ensures Consistent(clients', heap, chains, home, extra)
    ensures TableView(clients', heap, chains) == TableView(clients, heap, chains)[i := SlotView(clients'[i], heap, chains[i])]
  {
    TableUpdated(clients, heap, chains, clients', heap, chains, i);
  }

  lemma NoQueues(clients: Clients, chains: Chains)
    requires forall i: Index :: clients[i] == Client(0, NULL, NULL, 0, 0, false) && chains[i] == []
    ensures AllAllocated(map[], chains) && Consistent(clients, map[], chains, map[], [])
    ensures forall i: Index :: TableView(clients, map[], chains)[i] == FREE_SLOT
  {
    forall i: Index
      ensures Chain(map[], chains[i])
    {
      EmptyChain(map[]);
    }
  }

  class Server {
    var clients: Clients
    var generation: nat
    var lastClient: Index
    var pcbs: map<nat, Pcb>
    var heap: Heap
    ghost var chains: Chains            // the pbufs queued in each slot
    ghost var home: map<nat, Index>     // the slot each queued pbuf belongs to

    ghost predicate ValidHeap(extra: seq<nat>)
      reads this
    {
      AllAllocated(heap, chains) && Consistent(clients, heap, chains, home, extra)
    }

    ghost function View(): Net
      requires AllAllocated(heap, chains)
      reads this
    {
      Net(TableView(clients, heap, chains), generation, lastClient, pcbs)
    }

    ghost predicate Valid(extra: seq<nat>)
      reads this
    {
      ValidHeap(extra) && Owned(View())
    }

    /** Every slot is free and nothing is allocated. */
    constructor ()
      ensures Valid([])
      ensures View().generation == 0 && pcbs == map[] && heap == map[] && forall i: Index :: View().clients[i] == FREE_SLOT
    {
      clients := seq(MAX_CLIENTS, _ => Client(0, NULL, NULL, 0, 0, false));
      generation, lastClient := 0, 0;
      pcbs, heap := map[], map[];
      chains, home := seq(MAX_CLIENTS, _ => []), map[];
      new;
      NoQueues(clients, chains);
    }

    // ---- the queue of a slot ---------------------------------------------------------------

    /** Frees the slot's queue, if it has one. */
    method FreeQueue(i: Index, ghost extra: seq<nat>)
      requires ValidHeap(extra)
      modifies this`heap, this`clients, this`chains, this`home
      ensures ValidHeap(extra)
      ensures View() == old(View()).(clients := old(View()).clients[i := old(View()).clients[i].(segments := [])])
    {
      hide Consistent, Segments, Rehome, Released, Chain;
      QueueFacts(clients, heap, chains, home, extra, i);
      ghost var ids := chains[i];
      if clients[i].p != NULL {
        ChainFreeable(heap, ids);
        heap := PbufFree(heap, clients[i].p, ids, |ids|);
        clients := clients[i := clients[i].(p := NULL)];
      } else {
        ReleaseNone(heap);
      }
      chains := chains[i := []];
      home := Rehome(home, i, []);
      QueueFreed(old(clients), old(heap), old(chains), old(home), extra, i, clients, heap, chains);
    }

    /** Assign fields of slot `i` other than its queue. */
    method SetFields(i: Index, c: Client, ghost extra: seq<nat>)
      requires ValidHeap(extra) && c.p == clients[i].p
      modifies this`clients
      ensures ValidHeap(extra)
      ensures View() == old(View()).(clients := old(View()).clients[i := SlotView(c, heap, chains[i])])
    {
      hide Consistent, Segments;
      clients := clients[i := c];
      FieldsChanged(old(clients), heap, chains, home, extra, i, clients);
    }

    // ---- callbacks ----------------------------------------------------------------------------

    method DoClose(arg: Arg, c: nat, r: CloseResult)
      requires Valid([]) && c in pcbs && pcbs[c].arg == arg
      modifies this
      ensures Valid([])
      ensures View() == EthernetTable.DoClose(old(View()), arg, c, r)
    {
      CloseOwned(View(), c, r);
      hide Consistent, Owned, Segments;
      ghost var before := View();
      pcbs := Detach(pcbs[c := pcbs[c].(poll := false)], c);
      if arg.SlotArg? && clients[arg.slot].cpcb == c {
        FreeQueue(arg.slot, []);
        SetFields(arg.slot, clients[arg.slot].(read := 0, port := 0, cpcb := NULL), []);
        pcbs := TcpClose(pcbs, c, r);
      }
      assert View() == EthernetTable.DoClose(before, arg, c, r);
    }

    /** The data half of `do_recv`; lwIP hands over the list `ids` starting at `p`. */
    method DoRecv(arg: Arg, c: nat, p: nat, ghost ids: seq<nat>) returns (ok: bool)
      requires Valid(ids) && c in pcbs && p == Head(ids) && ids != []
      requires Allocated(heap, ids)
      modifies this
      ensures ok <==> Represents(old(View()), arg, c)
      ensures !ok ==> Valid(ids)
      ensures ok ==> ValidHeap([]) && (Valid([]) <==> NonEmpty(old(Segments(heap, ids))))
      ensures View() == EthernetTable.DoRecv(old(View()), arg, c, old(Segments(heap, ids)))
    {
      if !(arg.SlotArg? && clients[arg.slot].cpcb == c) {
        return false;
      }
      var i := arg.slot;
      ghost var before, data := View(), Segments(heap, ids);
      assert SlotOwned(before, i);
      RecvOwned(before, c, data);
      DisjointFromQueues(heap, chains, home, ids, i);
      QueueFacts(clients, heap, chains, home, ids, i);
      Enqueue(i, p, ids);
      assert View() == EthernetTable.DoRecv(before, arg, c, data);
      return true;
    }

    method Enqueue(i: Index, p: nat, ghost ids: seq<nat>)
      requires ValidHeap(ids) && p == Head(ids) && ids != [] && Allocated(heap, ids)
      modifies this`heap, this`clients, this`chains, this`home
      ensures ValidHeap([])
      ensures var s := old(View()).clients[i];
              View() == old(View()).(clients := old(View()).clients[i := s.(segments := s.segments + old(Segments(heap, ids)))])
    {
      hide Segments, Rehome, Joined, Homed, Linked, CountsAt;
      QueueFacts(clients, heap, chains, home, ids, i);
      DisjointFromQueues(heap, chains, home, ids, i);
      ghost var queue := chains[i];
      hide Consistent;
      if clients[i].p != NULL {
        heap := PbufCat(heap, clients[i].p, p, queue);
      } else {
        clients := clients[i := clients[i].(p := p)];
      }
      chains := chains[i := queue + ids];
      home := Rehome(home, i, queue + ids);
      assert clients[i].p == Head(chains[i]);
      QueueGrown(old(clients), old(heap), old(chains), old(home), ids, i, clients, heap, chains);
    }

    method DoErr(arg: Arg)
      requires ValidHeap([])
      modifies this
      ensures ValidHeap([])
      ensures View() == EthernetTable.DoErr(old(View()), arg)
    {
      hide Consistent, Segments;
      if arg.SlotArg? {
        SetFields(arg.slot, clients[arg.slot].(cpcb := NULL, port := 0, read := 0), []);
        FreeQueue(arg.slot, []);
      }
    }

    /** A fatal error on pcb `c`: lwIP frees it and calls the error callback, if one is installed. */
    method TcpError(c: nat)
      requires Valid([]) && c in pcbs
      modifies this
      ensures Valid([])
      ensures pcbs == old(pcbs) - {c} && generation == old(generation) && lastClient == old(lastClient)
      ensures forall i: Index :: View().clients[i] ==
                (if old(View()).clients[i].cpcb == c then CloseSlot(old(View()).clients[i]) else old(View()).clients[i])
    {
      ErrOwned(View(), c);
      hide Consistent, Owned, Segments;
      ghost var before := View();
      var pcb := pcbs[c];
      pcbs := pcbs - {c};
      if pcb.err {
        DoErr(pcb.arg);
      }
      ghost var freed := before.(pcbs := before.pcbs - {c});
      assert View() == if pcb.err then EthernetTable.DoErr(freed, pcb.arg) else freed;
    }

    /** The first slot with port 0. */
    method NextFree() returns (i: nat)
      requires ValidHeap([])
      ensures if i < MAX_CLIENTS then FirstFree(View().clients, 0) == Some(i)
              else i == MAX_CLIENTS && FirstFree(View().clients, 0) == None
    {
      hide Consistent, Segments;
      ghost var slots := View().clients;
      i := 0;
      while i < MAX_CLIENTS && clients[i].port != 0
        invariant i <= MAX_CLIENTS
        invariant FirstFree(slots, 0) == FirstFree(slots, i)
      {
        i := i + 1;
      }
    }

    method DoAccept(c: nat) returns (ok: bool)
      requires Valid([]) && Fresh(View(), c)
      modifies this
      ensures ok <==> FirstFree(old(View()).clients, 0).Some?
      ensures ValidHeap([]) && (Valid([]) <==> !ok || old(pcbs)[c].remotePort != 0)
      ensures View() == EthernetTable.DoAccept(old(View()), c)
    {
      ghost var before := View();
      AcceptOwned(before, c);
      var i := NextFree();
      if i >= MAX_CLIENTS {
        return false;
      }
      assert SlotOwned(before, i);
      QueueFacts(clients, heap, chains, home, [], i);
      NoSegments(heap, chains[i]);
      hide Consistent, Owned, Segments;
      generation := NextGeneration(generation);
      SetFields(i, Client(pcbs[c].remotePort, NULL, c, 0, generation, false), []);
      pcbs := pcbs[c := pcbs[c].(arg := SlotArg(i), recv := true, err := true)];
      assert View() == EthernetTable.DoAccept(before, c);
      return true;
    }

    // ---- server calls ---------------------------------------------------------------------------

    /** `clients[i]` holds an established connection: every pointer followed is valid. */
    method IsLive(i: Index) returns (live: bool)
      requires Valid([])
      ensures live <==> Live(View(), i)
    {
      assert SlotOwned(View(), i);
      var cpcb := clients[i].cpcb;
      live := clients[i].port != 0 && cpcb != NULL && pcbs[cpcb].state == ESTABLISHED;
    }

    /** The 16-bit length of slot `i`'s queue, from the first pbuf. */
    method QueueLength(i: Index) returns (n: nat)
      requires Valid([]) && clients[i].p != NULL
      ensures n == TotLen(View().clients[i].segments) && View().clients[i].segments != []
    {
      QueueFacts(clients, heap, chains, home, [], i);
      assert CountsAt(heap, chains[i], 0) && chains[i][0..] == chains[i];
      n := heap[clients[i].p].totLen;
    }

    /** `available()`, the pending slot it stops at. */
    method NextPending() returns (found: Option<Index>)
      requires Valid([])
      modifies this`lastClient
      ensures Valid([])
      ensures Scan(found, lastClient) == ServerAvailable(old(View()))
      ensures View() == old(View()).(lastClient := lastClient)
    {
      hide Owned, Consistent, Pending, TableView, ScanFrom;
      ghost var before := View();
      var i := 0;
      while i < MAX_CLIENTS
        invariant i <= MAX_CLIENTS && View() == before.(lastClient := lastClient) && Valid([])
        invariant ScanFrom(before, lastClient, MAX_CLIENTS - i) == ServerAvailable(before)
      {
        ScanStep(before, lastClient, MAX_CLIENTS - i);
        lastClient := if lastClient + 1 >= MAX_CLIENTS then 0 else lastClient + 1;
        CursorOwned(before, lastClient);
        assert View() == before.(lastClient := lastClient);
        var pending := IsPending(lastClient);
        if pending {
          return Some(lastClient);
        }
        i := i + 1;
      }
      ScanStep(before, lastClient, 1);
      return None;
    }

    method IsPending(i: Index) returns (pending: bool)
      requires Valid([])
      ensures pending <==> Pending(View(), i)
    {
      pending := IsLive(i);
      if pending {
        if clients[i].p != NULL {
          var n := QueueLength(i);
          pending := n > clients[i].read;
        } else {
          QueueFacts(clients, heap, chains, home, [], i);
          pending := false;
        }
      }
    }

    /** `accept()`, the slot it claims. */
    method ClaimNext() returns (found: Option<Index>)
      requires Valid([])
      modifies this`clients
      ensures Valid([])
      ensures found == FirstUnclaimed(old(View()), 0)
      ensures View() == match found case None => old(View()) case Some(i) => Claim(old(View()), i)
    {
      ghost var before := View();
      var i := 0;
      while i < MAX_CLIENTS
        invariant i <= MAX_CLIENTS && clients == old(clients)
        invariant FirstUnclaimed(before, 0) == FirstUnclaimed(before, i)
      {
        var live := IsLive(i);
        if live && !clients[i].claimed {
          ClaimOwned(before, i);
          hide Consistent, Owned, Segments;
          SetFields(i, clients[i].(claimed := true), []);
          assert View() == Claim(before, i);
          return Some(i);
        }
        i := i + 1;
      }
      return None;
    }

    // ---- operations of a handle on its slot ---------------------------------------------------------

    /** The first pbuf of slot `i` has been read to its end: move on to the next one and free it. */
    method NextBuffer(i: Index)
      requires ValidHeap([]) && clients[i].p != NULL
      modifies this`heap, this`clients, this`chains, this`home
      ensures ValidHeap([])
      ensures old(View()).clients[i].segments != []
      ensures var s := old(View()).clients[i];
              View() == old(View()).(clients := old(View()).clients[i := s.(read := 0, segments := s.segments[1..])])
    {
      hide Consistent, Rehome, Chain, Segments;
      ghost var ids := chains[i];
      QueueFacts(clients, heap, chains, home, [], i);
      NextPbuf(heap, ids);
      NoSegments(heap, ids) by { ChainFreeable(heap, ids); }
      var p := clients[i].p;
      var next := heap[p].next;
      if next != NULL {
        RefThenFree(heap, ids);
        heap := heap[next := heap[next].(ref := heap[next].ref + 1)];
      } else {
        FreeOne(heap, ids);
        ChainFreeable(heap, ids);
      }
      heap := PbufFree(heap, p, ids, 1);
      clients := clients[i := clients[i].(read := 0, p := next)];
      chains := chains[i := ids[1..]];
      home := Rehome(home, i, ids[1..]);
      QueuePopped(old(clients), old(heap), old(chains), old(home), i, clients, heap, chains);
    }

    /** The locked part of `readLocked`: one byte of the first pbuf, which is released with its last byte. */
    method TakeByte(i: Index) returns (b: byte)
      requires ValidHeap([]) && clients[i].p != NULL && QueueOk(View().clients[i])
      modifies this`heap, this`clients, this`chains, this`home
      ensures ValidHeap([])
      ensures old(View()).clients[i].segments != []
      ensures Front(old(View()).clients[i]) == Byte(b)
      ensures View() == old(View()).(clients := old(View()).clients[i := Advance(old(View()).clients[i])])
    {
      hide Consistent, Chain, Segments;
      QueueFacts(clients, heap, chains, home, [], i);
      FirstPayload(heap, chains[i]);
      assert View().clients[i] == SlotView(clients[i], heap, chains[i]);
      var p, read := clients[i].p, clients[i].read + 1;
      b := heap[p].payload[read - 1];
      if read == |heap[p].payload| {
        NextBuffer(i);
      } else {
        SetFields(i, clients[i].(read := read), []);
      }
    }

    method FirstByte(i: Index) returns (b: byte)
      requires ValidHeap([]) && clients[i].p != NULL && QueueOk(View().clients[i])
      ensures View().clients[i].segments != [] && Front(View().clients[i]) == Byte(b)
    {
      hide Consistent, Chain, Segments;
      QueueFacts(clients, heap, chains, home, [], i);
      FirstPayload(heap, chains[i]);
      assert View().clients[i] == SlotView(clients[i], heap, chains[i]);
      b := heap[clients[i].p].payload[clients[i].read];
    }

    /** What `stop()` does to a slot: `r` is the outcome of closing its pcb. */
    method StopConnection(i: Index, r: CloseResult)
      requires Valid([])
      modifies this
      ensures Valid([])
      ensures View() == EthernetTable.Stop(old(View()), Handle(Shared(i), clients[i].generation, true), r)
    {
      ghost var before, h := View(), Handle(Shared(i), clients[i].generation, true);
      StopOwned(before, h, r);
      StopFacts(before, i);
      hide Consistent, Owned, Segments, Pbufs.Allocated;
      var c := clients[i].cpcb;
      if c != NULL {
        pcbs := Detach(pcbs, c);
        FreeQueue(i, []);
        pcbs := TcpClose(pcbs, c, r);
      }
      SetFields(i, clients[i].(cpcb := NULL, port := 0), []);
      assert View() == EthernetTable.Stop(before, h, r);
    }
  }

  lemma StopFacts(net: Net, i: Index)
    requires Owned(net)
    ensures var s := net.clients[i]; if s.cpcb == NULL then s.segments == [] && NULL !in net.pcbs else s.cpcb in net.pcbs
  {
    assert SlotOwned(net, i);
  }

  /** Where a client's `cs` points: at its own `client_state`, or at a slot of a server. */
  datatype Cs = OwnState(client: EthernetClient) | SlotOf(server: Server, i: Index)

  class EthernetClient {
    var cs: Cs
    var generation: nat
    var connected: bool

    /** `cs` never points at another client's storage. */
    ghost predicate Valid()
      reads this
    {
      cs.OwnState? ==> cs.client == this
    }

    ghost function AsHandle(): Handle
      reads this
    {
      Handle(match cs case OwnState(_) => Own(0) case SlotOf(_, i) => Shared(i), generation, connected)
    }

    ghost predicate Ready()
      reads this, if cs.SlotOf? then {cs.server} else {}
    {
      Valid() && (cs.SlotOf? ==> cs.server.Valid([]))
    }

    constructor Empty()
      ensures Valid() && cs == OwnState(this) && generation == 0 && !connected
    {
      cs := OwnState(this);
      generation := 0;
      connected := false;
    }

    constructor (server: Server, i: Index)
      ensures Valid() && cs == SlotOf(server, i) && generation == server.clients[i].generation && connected
    {
      cs := SlotOf(server, i);
      generation := server.clients[i].generation;
      connected := true;
    }

    /** The copy of a self-owned client owns its own storage; otherwise both share the slot. */
    method CopyFrom(other: EthernetClient)
      requires other.Valid()
      modifies this
      ensures Valid() && AsHandle() == old(other.AsHandle())
      ensures cs.SlotOf? ==> cs == old(other.cs)
    {
      connected := other.connected;
      generation := other.generation;
      cs := if other.cs == OwnState(other) then OwnState(this) else other.cs;
    }

    method IsStale() returns (stale: bool)
      requires Valid() && (cs.SlotOf? ==> cs.server.ValidHeap([]))
      ensures cs.SlotOf? ==> (stale <==> Stale(cs.server.View(), AsHandle()))
      ensures cs.OwnState? ==> !stale
    {
      stale := cs != OwnState(this) && cs.server.clients[cs.i].generation != generation;
    }

    method AvailableBytes() returns (n: int)
      requires Ready()
      ensures cs.SlotOf? ==> n == Available(cs.server.View(), AsHandle())
      ensures cs.OwnState? ==> n == 0
    {
      var stale := IsStale();
      if stale || cs.OwnState? {
        return 0;
      }
      var server, i := cs.server, cs.i;
      QueueFacts(server.clients, server.heap, server.chains, server.home, [], i);
      if server.clients[i].p == NULL {
        return 0;
      }
      var len := server.QueueLength(i);
      n := len - server.clients[i].read;
    }

    method ReadByte() returns (b: int)
      requires Ready()
      modifies if cs.SlotOf? then {cs.server} else {}
      ensures Ready()
      ensures cs.OwnState? ==> b == -1
      ensures cs.SlotOf? ==> cs.server.View() == ReadLocked(old(cs.server.View()), AsHandle())
      ensures cs.SlotOf? ==> Peek(old(cs.server.View()), AsHandle()) == if 0 <= b < 256 then Byte(b) else NoData
      ensures -1 <= b < 256
    {
      var n := AvailableBytes();
      if n == 0 {
        return -1;
      }
      var server, i := cs.server, cs.i;
      ghost var before := server.View();
      assert SlotOwned(before, i);
      ReadOwned(before, AsHandle());
      QueueFacts(server.clients, server.heap, server.chains, server.home, [], i);
      hide Owned, Consistent, Segments;
      b := server.TakeByte(i);
      assert server.View() == ReadLocked(before, AsHandle());
    }

    method PeekByte() returns (b: int)
      requires Ready()
      ensures cs.OwnState? ==> b == -1
      ensures cs.SlotOf? ==> Peek(cs.server.View(), AsHandle()) == if 0 <= b < 256 then Byte(b) else NoData
      ensures -1 <= b < 256
    {
      var n := AvailableBytes();
      if n == 0 {
        return -1;
      }
      var server, i := cs.server, cs.i;
      assert SlotOwned(server.View(), i);
      QueueFacts(server.clients, server.heap, server.chains, server.home, [], i);
      b := server.FirstByte(i);
    }

    method Stop(r: CloseResult)
      requires Ready()
      modifies this, if cs.SlotOf? then {cs.server} else {}
      ensures Ready() && cs == old(cs) && generation == old(generation) && !connected
      ensures cs.SlotOf? ==> cs.server.View() == EthernetTable.Stop(old(cs.server.View()), old(AsHandle()), r)
    {
      var stale := IsStale();
      connected := false;
      if !stale && cs.SlotOf? {
        var server := cs.server;
        hide Consistent, Segments, Owned, TableView;
        server.StopConnection(cs.i, r);
      }
    }

    method StatusOf() returns (st: TcpState)
      requires Ready()
      ensures cs.SlotOf? ==> st == Status(cs.server.View(), AsHandle())
      ensures cs.OwnState? ==> st == CLOSED
    {
      var stale := IsStale();
      if stale || cs.OwnState? {
        return CLOSED;
      }
      assert SlotOwned(cs.server.View(), cs.i);
      var cpcb := cs.server.clients[cs.i].cpcb;
      st := if cpcb == NULL then CLOSED else cs.server.pcbs[cpcb].state;
    }

    method IsConnected() returns (r: bool)
      requires Ready()
      ensures cs.SlotOf? ==> (r <==> Connected(cs.server.View(), AsHandle()))
      ensures cs.OwnState? ==> r == connected
    {
      var stale := IsStale();
      if stale {
        return false;
      }
      var n := AvailableBytes();
      var st := StatusOf();
      r := n != 0 || st == ESTABLISHED || (cs == OwnState(this) && connected);
    }
  }

  lemma FirstPayload(heap: Heap, ids: seq<nat>)
    requires Allocated(heap, ids) && ids != []
    ensures ids[0] in heap && Segments(heap, ids) != [] && Segments(heap, ids)[0] == heap[ids[0]].payload
  {
  }

  lemma NextPbuf(heap: Heap, ids: seq<nat>)
    requires Chain(heap, ids) && ids != []
    ensures ids[0] in heap && heap[ids[0]].next == Head(ids[1..])
    ensures Head(ids[1..]) != NULL <==> |ids| > 1
  {
    ChainTail(heap, ids);
    NullHead(heap, ids[1..]);
  }

  lemma ScanStep(net: Net, cursor: Index, left: nat)
    requires left > 0
    ensures var next: Index := if cursor + 1 >= MAX_CLIENTS then 0 else cursor + 1;
            ScanFrom(net, cursor, left) == if Pending(net, next) then Scan(Some(next), next) else ScanFrom(net, next, left - 1)
    ensures ScanFrom(net, cursor, 0) == Scan(None, cursor)
  {
  }

  lemma CursorOwned(net: Net, cursor: Index)
    requires Owned(net)
    ensures Owned(net.(lastClient := cursor))
    ensures forall i: Index :: Pending(net.(lastClient := cursor), i) <==> Pending(net, i)
  {
    var net' := net.(lastClient := cursor);
    forall j: Index ensures SlotOwned(net', j) { assert SlotOwned(net, j); }
    forall c | c in net.pcbs ensures PcbOwned(net', c) { assert PcbOwned(net, c); }
  }

  lemma DisjointFromQueues(heap: Heap, chains: Chains, home: map<nat, Index>, ids: seq<nat>, i: Index)
    requires Accounted(heap, chains, home, ids)
    ensures Linked(heap, chains[i]) && forall k | 0 <= k < |ids| :: ids[k] !in chains[i]
  {
    assert HomedAt(chains[i], home, i);
  }

  lemma NoSegments(heap: Heap, ids: seq<nat>)
    requires Linked(heap, ids) && Allocated(heap, ids)
    ensures Segments(heap, ids) == [] <==> Head(ids) == NULL
  {
    NullHead(heap, ids);
  }
}
