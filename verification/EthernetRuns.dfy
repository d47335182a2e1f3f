/**
 Whole runs of the server: lwIP events (accept, data, FIN, fatal error, timers) interleaved in any
 order with the steps a sketch takes on its handles.

 Next to the network state a world carries a history the code cannot see: connections are numbered
 in the order of their accepts, `owner` says which connection last took each slot, `carries` which
 connection an accepted pcb belongs to, and `made` which connection a handle was made for.
 */
module EthernetRuns {
  import opened EthernetTable
  import opened EthernetOwnership

  /** The number of distinct stamps: 1..65535, since 0 is skipped. */
  const STAMPS: nat := 65535

  /**
   `delivered`: payloads handed to the slot; `consumed`: bytes read out of the slot while this
   connection owned it; `discarded`: bytes still unread when the connection left the slot; `received`: bytes
   returned by `read()` on handles made for it; `handed`: how often `accept()` returned it.
   */
  datatype Conn = Conn(slot: Index, delivered: seq<byte>, consumed: seq<byte>, discarded: seq<byte>,
                       received: seq<byte>, handed: nat)

  type Owners = s: seq<Option<nat>> | |s| == MAX_CLIENTS witness seq(MAX_CLIENTS, _ => None)

  datatype World = World(net: Net, handles: map<nat, Handle>, conns: seq<Conn>, owner: Owners,
                         carries: map<nat, nat>, made: map<nat, nat>)

  datatype Event =
    | Accept(c: nat, remotePort: nat)              // a fresh pcb at address c is established
    | Deliver(c: nat, data: seq<seq<byte>>)        // a chain of payloads arrives
    | Fin(c: nat, state: TcpState, r: CloseResult) // the peer closes
    | Reset(c: nat)                                // RST, abort or time-out: lwIP frees the pcb
    | SetState(c: nat, state: TcpState)            // any other TCP transition
    | Expire(c: nat)                               // lwIP frees a pcb without an error callback
    | Retry(c: nat, r: CloseResult)                // poll callback: close again
    | AvailableCall(h: nat)
    | AcceptCall(h: nat)
    | Copy(h: nat, src: nat)                       // copy construction or assignment
    | Destroy(h: nat)
    | ReadCall(h: nat)
    | StopCall(h: nat, r: CloseResult)

  ghost predicate Enabled(w: World, e: Event) {
    match e
    case Accept(c, port) => c != NULL && c !in w.net.pcbs && port < U16
    case Deliver(c, data) => c in w.net.pcbs && data != []
    case Fin(c, _, _) => c in w.net.pcbs
    case Reset(c) => c in w.net.pcbs
    case SetState(c, _) => c in w.net.pcbs
    case Expire(c) => c in w.net.pcbs && !w.net.pcbs[c].err
    case Retry(c, _) => c in w.net.pcbs && w.net.pcbs[c].poll
    case AvailableCall(h) => h !in w.handles
    case AcceptCall(h) => h !in w.handles
    case Copy(h, src) => src in w.handles
    case Destroy(h) => h in w.handles
    case ReadCall(h) => h in w.handles
    case StopCall(h, _) => h in w.handles
  }

  /** What the code takes for granted: peers do not use port 0, and every pbuf carries data. */
  predicate Clean(e: Event) {
    match e
    case Accept(_, port) => port != 0
    case Deliver(_, data) => NonEmpty(data)
    case _ => true
  }

  predicate AllClean(es: seq<Event>) {
    forall k | 0 <= k < |es| :: Clean(es[k])
  }

  function Initial(): World {
    World(Net(seq(MAX_CLIENTS, _ => FREE_SLOT), 0, 0, map[]), map[], [], seq(MAX_CLIENTS, _ => None), map[], map[])
  }

  // ---- one step -----------------------------------------------------------------------------

  function AcceptStep(w: World, c: nat, port: nat): World {
    var net := w.net.(pcbs := w.net.pcbs[c := Pcb(ESTABLISHED, port, ServerArg, false, false, false)]);
    match FirstFree(net.clients, 0)
    case None => w.(net := net.(pcbs := net.pcbs - {c}))   // ERR_MEM: lwIP aborts the connection
    case Some(i) =>
      var k := |w.conns|;
      w.(net := DoAccept(net, c), conns := w.conns + [Conn(i, [], [], [], [], 0)],
         owner := w.owner[i := Some(k)], carries := w.carries[c := k])
  }

  function DeliverStep(w: World, c: nat, data: seq<seq<byte>>): World
    requires c in w.net.pcbs
  {
    var pcb := w.net.pcbs[c];
    if !pcb.recv || !Represents(w.net, pcb.arg, c) then w   // discarded, or refused with ERR_MEM
    else
      w.(net := DoRecv(w.net, pcb.arg, c, data),
         conns := if c in w.carries && w.carries[c] < |w.conns| then
           var k := w.carries[c];
           w.conns[k := w.conns[k].(delivered := w.conns[k].delivered + Flatten(data))]
         else w.conns)
  }

  /** Connection k is still the one in its slot. */
  predicate Current(w: World, k: nat) {
    k < |w.conns| && w.owner[w.conns[k].slot] == Some(k) && w.net.clients[w.conns[k].slot].cpcb != NULL
  }

  /** The network becomes `net`; a connection that thereby leaves its slot loses what was unread. */
  function Leave(w: World, net: Net): (w': World)
    ensures |w'.conns| == |w.conns| && w' == w.(net := net, conns := w'.conns)
    ensures forall k | 0 <= k < |w.conns| :: w'.conns[k] == LeaveConn(w, net, k)
  {
    w.(net := net, conns := seq(|w.conns|, k requires 0 <= k < |w.conns| => LeaveConn(w, net, k)))
  }

  function LeaveConn(w: World, net: Net, k: nat): Conn
    requires k < |w.conns|
  {
    var conn := w.conns[k];
    if Current(w, k) && net.clients[conn.slot].cpcb == NULL
    then conn.(discarded := Unread(w.net.clients[conn.slot])) else conn
  }

  function FinStep(w: World, c: nat, state: TcpState, r: CloseResult): World
    requires c in w.net.pcbs
  {
    var net := w.net.(pcbs := w.net.pcbs[c := w.net.pcbs[c].(state := state)]);
    Leave(w, if net.pcbs[c].recv then DoClose(net, net.pcbs[c].arg, c, r) else net)
  }

  function ResetStep(w: World, c: nat): World
    requires c in w.net.pcbs
  {
    var pcb := w.net.pcbs[c];
    var net := w.net.(pcbs := w.net.pcbs - {c});
    Leave(w, if pcb.err then DoErr(net, pcb.arg) else net)
  }

  /** Bind handle `h`, made for the connection that owns the slot it points at. */
  function Bind(w: World, h: nat, found: Option<Index>): World {
    var w' := w.(handles := w.handles[h := MakeHandle(w.net, found, h)]);
    if found.Some? && w.owner[found.value].Some?
    then w'.(made := w.made[h := w.owner[found.value].value])
    else w'.(made := w.made - {h})
  }

  function AcceptCallStep(w: World, h: nat): World {
    match FirstUnclaimed(w.net, 0)
    case None => Bind(w, h, None)
    case Some(i) =>
      var conns :=
        if w.owner[i].Some? && w.owner[i].value < |w.conns| then
          var k := w.owner[i].value;
          w.conns[k := w.conns[k].(handed := w.conns[k].handed + 1)]
        else w.conns;
      Bind(w.(net := Claim(w.net, i), conns := conns), h, Some(i))
  }

  function CopyStep(w: World, h: nat, src: nat): World
    requires src in w.handles
  {
    if h == src then w
    else
      w.(handles := w.handles[h := CopyFrom(h, src, w.handles[src])],
         made := if src in w.made then w.made[h := w.made[src]] else w.made - {h})
  }

  function Consumed(conns: seq<Conn>, k: nat, b: byte): seq<Conn> {
    if k < |conns| then conns[k := conns[k].(consumed := conns[k].consumed + [b])] else conns
  }

  function Received(conns: seq<Conn>, k: nat, b: byte): seq<Conn> {
    if k < |conns| then conns[k := conns[k].(received := conns[k].received + [b])] else conns
  }

  function ReadStep(w: World, h: nat): World
    requires h in w.handles
  {
    var x := w.handles[h];
    match Peek(w.net, x)
    case Byte(b) =>
      var conns := match w.owner[x.cs.slot] case Some(k) => Consumed(w.conns, k, b) case None => w.conns;
      w.(net := ReadLocked(w.net, x),
         conns := if h in w.made then Received(conns, w.made[h], b) else conns)
    case _ => w.(net := ReadLocked(w.net, x))
  }

  function StopStep(w: World, h: nat, r: CloseResult): World
    requires h in w.handles
  {
    Leave(w, Stop(w.net, w.handles[h], r)).(handles := w.handles[h := w.handles[h].(connected := false)])
  }

  function Apply(w: World, e: Event): World
    requires Enabled(w, e)
  {
    match e
    case Accept(c, port) => AcceptStep(w, c, port)
    case Deliver(c, data) => DeliverStep(w, c, data)
    case Fin(c, st, r) => FinStep(w, c, st, r)
    case Reset(c) => ResetStep(w, c)
    case SetState(c, st) => w.(net := w.net.(pcbs := w.net.pcbs[c := w.net.pcbs[c].(state := st)]))
    case Expire(c) => w.(net := w.net.(pcbs := w.net.pcbs - {c}))
    case Retry(c, r) => w.(net := w.net.(pcbs := TcpClose(w.net.pcbs, c, r)))
    case AvailableCall(h) =>
      var scan := ServerAvailable(w.net);
      Bind(w.(net := w.net.(lastClient := scan.cursor)), h, scan.found)
    case AcceptCall(h) => AcceptCallStep(w, h)
    case Copy(h, src) => CopyStep(w, h, src)
    case Destroy(h) => w.(handles := w.handles - {h}, made := w.made - {h})
    case ReadCall(h) => ReadStep(w, h)
    case StopCall(h, r) => StopStep(w, h, r)
  }

  // ---- runs ------------------------------------------------------------------------------------

  ghost predicate Runs(w: World, es: seq<Event>)
    decreases |es|
  {
    es == [] || (Enabled(w, es[0]) && Runs(Apply(w, es[0]), es[1..]))
  }

  ghost function Run(w: World, es: seq<Event>): World
    requires Runs(w, es)
    decreases |es|
  {
    if es == [] then w else Run(Apply(w, es[0]), es[1..])
  }

  // ---- the invariant -----------------------------------------------------------------------------

  /** The stamp of the k-th accept, counting from 0. */
  function Stamp(k: nat): nat { k % STAMPS + 1 }

  /** A slot carries the stamp of its owner, and its pcb carries its owner's connection. */
  ghost predicate SlotStamped(w: World, i: Index) {
    var s := w.net.clients[i];
    match w.owner[i]
    case None => s.generation == 0 && s.cpcb == NULL
    case Some(k) =>
      && k < |w.conns| && w.conns[k].slot == i
      && s.generation == Stamp(k)
      && (s.cpcb != NULL ==> s.cpcb in w.carries && w.carries[s.cpcb] == k)
  }

  /** A handle points at its own storage, or at the slot of the connection it was made for. */
  ghost predicate HandleStamped(w: World, h: nat)
    requires h in w.handles
  {
    match w.handles[h].cs
    case Own(o) => o == h && h !in w.made && !w.handles[h].connected
    case Shared(i) =>
      && h in w.made && w.made[h] < |w.conns| && w.conns[w.made[h]].slot == i
      && w.handles[h].generation == Stamp(w.made[h])
      && w.owner[i].Some? && w.made[h] <= w.owner[i].value
  }

  ghost predicate Stamped(w: World) {
    && w.net.generation == (if w.conns == [] then 0 else Stamp(|w.conns| - 1))
    && (forall i: Index :: SlotStamped(w, i))
    && (forall h | h in w.handles :: HandleStamped(w, h))
  }

  /** Byte stream and hand-overs of one connection. */
  ghost predicate ConnOk(w: World, k: nat)
    requires k < |w.conns|
  {
    var conn := w.conns[k];
    var s := w.net.clients[conn.slot];
    && (if Current(w, k) then conn.consumed + Unread(s) == conn.delivered && conn.discarded == []
        else conn.consumed + conn.discarded == conn.delivered)
    && conn.handed <= 1
    && (w.owner[conn.slot] == Some(k) ==> (s.claimed <==> conn.handed == 1))
  }

  ghost predicate ConnsOk(w: World) {
    forall k: nat | k < |w.conns| :: ConnOk(w, k)
  }

  ghost predicate Inv(w: World) {
    Owned(w.net) && Stamped(w) && ConnsOk(w)
  }

  // ---- each event keeps the invariant ---------------------------------------------------------------

  lemma NextStamp(k: nat)
    ensures NextGeneration(Stamp(k)) == Stamp(k + 1)
    ensures NextGeneration(0) == Stamp(0)
  {
  }

  /** The world after an accept into slot `i`, with the facts the next two lemmas need. */
  lemma AcceptedInto(w: World, c: nat, port: nat, i: Index)
    requires Inv(w) && Enabled(w, Accept(c, port)) && port != 0 && FirstFree(w.net.clients, 0) == Some(i)
    ensures var w' := AcceptStep(w, c, port);
            && Owned(w'.net)
            && w'.net.generation == Stamp(|w.conns|)
            && w'.net.clients == w.net.clients[i := Slot(port, [], c, 0, Stamp(|w.conns|), false)]
  {
    var net := w.net.(pcbs := w.net.pcbs[c := Pcb(ESTABLISHED, port, ServerArg, false, false, false)]);
    forall j: Index ensures SlotOwned(net, j) { assert SlotOwned(w.net, j); }
    forall d | d in net.pcbs ensures PcbOwned(net, d) { assert d != c ==> PcbOwned(w.net, d); }
    AcceptOwned(net, c);
    NextStamp(if w.conns == [] then 0 else |w.conns| - 1);
  }

  lemma AcceptStamped(w: World, c: nat, port: nat, i: Index)
    requires Inv(w) && Enabled(w, Accept(c, port)) && port != 0 && FirstFree(w.net.clients, 0) == Some(i)
    ensures Stamped(AcceptStep(w, c, port))
  {
    AcceptedInto(w, c, port, i);
    var w' := AcceptStep(w, c, port);
    forall j: Index ensures SlotStamped(w', j) {
      assert SlotStamped(w, j) && SlotOwned(w.net, j);
    }
    forall h | h in w'.handles ensures HandleStamped(w', h) {
      assert HandleStamped(w, h);
      if h in w.made && w.made[h] < |w.conns| { assert w'.conns[w.made[h]] == w.conns[w.made[h]]; }
    }
  }

  lemma AcceptConns(w: World, c: nat, port: nat, i: Index)
    requires Inv(w) && Enabled(w, Accept(c, port)) && port != 0 && FirstFree(w.net.clients, 0) == Some(i)
    ensures ConnsOk(AcceptStep(w, c, port))
  {
    AcceptedInto(w, c, port, i);
    var w' := AcceptStep(w, c, port);
    forall m: nat | m < |w'.conns| ensures ConnOk(w', m) {
      if m < |w.conns| {
        assert w'.conns[m] == w.conns[m];
        assert ConnOk(w, m) && SlotOwned(w.net, i);
      }
    }
  }

  lemma AcceptKeeps(w: World, c: nat, port: nat)
    requires Inv(w) && Enabled(w, Accept(c, port)) && port != 0
    ensures Inv(AcceptStep(w, c, port))
  {
    match FirstFree(w.net.clients, 0)
    case None => assert AcceptStep(w, c, port).net.pcbs == w.net.pcbs;
    case Some(i) =>
      AcceptedInto(w, c, port, i);
      AcceptStamped(w, c, port, i);
      AcceptConns(w, c, port, i);
  }

  /** Data for pcb `c` joins the queue of the slot it represents and the record of the connection it carries. */
  lemma DeliveredTo(w: World, c: nat, data: seq<seq<byte>>)
    requires Inv(w) && Enabled(w, Deliver(c, data)) && NonEmpty(data) && w.net.pcbs[c].recv
    ensures var w' := DeliverStep(w, c, data);
            var i := w.net.pcbs[c].arg.slot;
            && Owned(w'.net) && w.net.pcbs[c].arg.SlotArg? && w.owner[i].Some?
            && var k := w.owner[i].value;
            && Current(w, k) && w.conns[k].slot == i
            && Unread(w'.net.clients[i]) == Unread(w.net.clients[i]) + Flatten(data)
            && w' == w.(net := w'.net, conns := w.conns[k := w.conns[k].(delivered := w.conns[k].delivered + Flatten(data))])
            && w'.net == w.net.(clients := w.net.clients[i := w.net.clients[i].(segments := w.net.clients[i].segments + data)])
  {
    RecvOwned(w.net, c, data);
    assert PcbOwned(w.net, c);
    var i := w.net.pcbs[c].arg.slot;
    assert SlotOwned(w.net, i) && SlotStamped(w, i);
    AppendUnread(w.net.clients[i], data);
  }

  /** Stamps depend on the owners, the handles, and each slot's generation and pcb alone. */
  lemma StampedFrame(w: World, w': World)
    requires Stamped(w)
    requires w'.owner == w.owner && w'.carries == w.carries && w'.handles == w.handles && w'.made == w.made
    requires w'.net.generation == w.net.generation
    requires forall i: Index :: w'.net.clients[i].generation == w.net.clients[i].generation
    requires forall i: Index :: w'.net.clients[i].cpcb == w.net.clients[i].cpcb
    requires |w'.conns| == |w.conns| && forall k: nat | k < |w.conns| :: w'.conns[k].slot == w.conns[k].slot
    ensures Stamped(w')
  {
    forall j: Index ensures SlotStamped(w', j) { assert SlotStamped(w, j); }
    forall h | h in w'.handles ensures HandleStamped(w', h) { assert HandleStamped(w, h); }
  }

  lemma DeliverKeeps(w: World, c: nat, data: seq<seq<byte>>)
    requires Inv(w) && Enabled(w, Deliver(c, data)) && NonEmpty(data)
    ensures Inv(DeliverStep(w, c, data))
  {
    if w.net.pcbs[c].recv {
      DeliveredTo(w, c, data);
      var w' := DeliverStep(w, c, data);
      hide DeliverStep, ConnOk, Owned, Stamped, Unread, Flatten;
      StampedFrame(w, w');
      forall m: nat | m < |w'.conns| ensures ConnOk(w', m) {
        assert ConnOk(w, m);
        DeliverConn(w, w', w.net.pcbs[c].arg.slot, Flatten(data), m);
      }
    }
  }

  lemma DeliverConn(w: World, w': World, i: Index, more: seq<byte>, m: nat)
    requires m < |w.conns| == |w'.conns| && ConnOk(w, m) && w'.owner == w.owner && w.owner[i].Some?
    requires Current(w, w.owner[i].value) && w.conns[w.owner[i].value].slot == i
    requires w'.net.clients == w.net.clients[i := w'.net.clients[i]]
    requires w'.net.clients[i].cpcb == w.net.clients[i].cpcb && w'.net.clients[i].claimed == w.net.clients[i].claimed
    requires Unread(w'.net.clients[i]) == Unread(w.net.clients[i]) + more
    requires w'.conns[m] == if m == w.owner[i].value then w.conns[m].(delivered := w.conns[m].delivered + more) else w.conns[m]
    ensures ConnOk(w', m)
  {
    if m == w.owner[i].value {
      assert w.conns[m].consumed + (Unread(w.net.clients[i]) + more) == (w.conns[m].consumed + Unread(w.net.clients[i])) + more;
    } else if w.conns[m].slot == i {
      assert !Current(w, m) && !Current(w', m);
    } else {
      assert w'.net.clients[w.conns[m].slot] == w.net.clients[w.conns[m].slot];
      assert Current(w, m) <==> Current(w', m);
    }
  }

  /**
   A step that only empties or leaves alone slots, and changes neither the owners nor the record of
   what was delivered, keeps stamps and streams.
   */
  lemma EmptyingKeeps(w: World, net: Net, handles: map<nat, Handle>)
    requires Inv(w)
    requires net.generation == w.net.generation
    requires forall i: Index :: var s, t := w.net.clients[i], net.clients[i];
               t.generation == s.generation && t.claimed == s.claimed && (t == s || t.cpcb == NULL)
    requires handles.Keys == w.handles.Keys
    requires forall h | h in handles :: handles[h].cs == w.handles[h].cs && handles[h].generation == w.handles[h].generation
                                        && (handles[h].connected ==> w.handles[h].connected)
    ensures var w' := Leave(w, net).(handles := handles); Stamped(w') && ConnsOk(w')
  {
    hide Unread, Leave;
    var w' := Leave(w, net).(handles := handles);
    forall j: Index ensures SlotStamped(w', j) { assert SlotStamped(w, j); }
    forall h | h in handles ensures HandleStamped(w', h) { assert HandleStamped(w, h); }
    forall m: nat | m < |w.conns| ensures ConnOk(w', m) {
      assert ConnOk(w, m);
      EmptyingConn(w, w', m);
    }
  }

  lemma EmptyingConn(w: World, w': World, m: nat)
    requires m < |w.conns| == |w'.conns| && ConnOk(w, m) && w'.owner == w.owner && w'.conns[m] == LeaveConn(w, w'.net, m)
    requires var s, t := w.net.clients[w.conns[m].slot], w'.net.clients[w.conns[m].slot];
             t.claimed == s.claimed && (t == s || t.cpcb == NULL)
    ensures ConnOk(w', m)
  {
    hide Unread;
    var conn := w.conns[m];
    if !Current(w, m) { assert !Current(w', m); }
  }

  /** A step that leaves the slots alone. */
  lemma NothingLeaves(w: World, net: Net)
    requires net.clients == w.net.clients
    ensures Leave(w, net) == w.(net := net)
  {
    hide Unread;
    assert Leave(w, net).conns == w.conns;
  }

  lemma FinKeeps(w: World, c: nat, state: TcpState, r: CloseResult)
    requires Inv(w) && c in w.net.pcbs
    ensures Inv(FinStep(w, c, state, r))
  {
    var net := w.net.(pcbs := w.net.pcbs[c := w.net.pcbs[c].(state := state)]);
    PcbStepOwned(w.net, c, net.pcbs);
    CloseOwned(net, c, r);
    EmptyingKeeps(w, FinStep(w, c, state, r).net, w.handles);
  }

  lemma ResetKeeps(w: World, c: nat)
    requires Inv(w) && c in w.net.pcbs
    ensures Inv(ResetStep(w, c))
  {
    ErrOwned(w.net, c);
    EmptyingKeeps(w, ResetStep(w, c).net, w.handles);
  }

  lemma StopKeeps(w: World, h: nat, r: CloseResult)
    requires Inv(w) && h in w.handles
    ensures Inv(StopStep(w, h, r))
  {
    StopOwned(w.net, w.handles[h], r);
    EmptyingKeeps(w, Stop(w.net, w.handles[h], r), StopStep(w, h, r).handles);
  }

  lemma BindKeeps(w: World, h: nat, found: Option<Index>)
    requires Inv(w) && (found.Some? ==> w.net.clients[found.value].cpcb != NULL)
    ensures Inv(Bind(w, h, found))
  {
    var w' := Bind(w, h, found);
    if found.Some? { assert SlotStamped(w, found.value); }
    forall j: Index ensures SlotStamped(w', j) { assert SlotStamped(w, j); }
    forall x | x in w'.handles ensures HandleStamped(w', x) { assert x != h ==> HandleStamped(w, x); }
    forall m: nat | m < |w.conns| ensures ConnOk(w', m) { assert ConnOk(w, m); }
  }

  lemma ClaimKeeps(w: World, i: Index, k: nat)
    requires Inv(w) && Unclaimed(w.net, i) && w.owner[i] == Some(k) && k < |w.conns|
    ensures Inv(w.(net := Claim(w.net, i), conns := w.conns[k := w.conns[k].(handed := w.conns[k].handed + 1)]))
  {
    var w' := w.(net := Claim(w.net, i), conns := w.conns[k := w.conns[k].(handed := w.conns[k].handed + 1)]);
    ClaimOwned(w.net, i);
    assert SlotStamped(w, i);
    StampedFrame(w, w');
    forall m: nat | m < |w.conns| ensures ConnOk(w', m) { assert ConnOk(w, m); }
  }

  lemma AcceptCallKeeps(w: World, h: nat)
    requires Inv(w)
    ensures Inv(AcceptCallStep(w, h))
  {
    match FirstUnclaimed(w.net, 0)
    case None => BindKeeps(w, h, None);
    case Some(i) =>
      assert SlotStamped(w, i);
      var k := w.owner[i].value;
      ClaimKeeps(w, i, k);
      BindKeeps(w.(net := Claim(w.net, i), conns := w.conns[k := w.conns[k].(handed := w.conns[k].handed + 1)]), h, Some(i));
  }

  lemma CopyKeeps(w: World, h: nat, src: nat)
    requires Inv(w) && src in w.handles
    ensures Inv(CopyStep(w, h, src))
  {
    var w' := CopyStep(w, h, src);
    forall j: Index ensures SlotStamped(w', j) { assert SlotStamped(w, j); }
    forall x | x in w'.handles ensures HandleStamped(w', x) {
      assert HandleStamped(w, src) && (x in w.handles ==> HandleStamped(w, x));
    }
    forall m: nat | m < |w.conns| ensures ConnOk(w', m) { assert ConnOk(w, m); }
  }

  /** One byte has left slot `i`, credited to its owner and to the connection the handle was made for. */
  ghost predicate Took(w: World, w': World, i: Index, made: nat) {
    && w.owner[i].Some? && Current(w, w.owner[i].value)
    && w.conns[w.owner[i].value].slot == i
    && Unread(w.net.clients[i]) != []
    && w'.owner == w.owner
    && (forall j: Index | j != i :: w'.net.clients[j] == w.net.clients[j])
    && Unread(w'.net.clients[i]) == Unread(w.net.clients[i])[1..]
    && w'.net.clients[i].cpcb == w.net.clients[i].cpcb
    && w'.net.clients[i].claimed == w.net.clients[i].claimed
    && |w'.conns| == |w.conns|
    && (forall m: nat | m < |w.conns| :: ConnTook(w, w', i, made, m))
  }

  ghost predicate ConnTook(w: World, w': World, i: Index, made: nat, m: nat)
    requires w.owner[i].Some? && Unread(w.net.clients[i]) != []
    requires m < |w.conns| && |w'.conns| == |w.conns|
  {
    var c, c', b := w.conns[m], w'.conns[m], Unread(w.net.clients[i])[0];
    && c'.slot == c.slot && c'.delivered == c.delivered && c'.handed == c.handed && c'.discarded == c.discarded
    && c'.consumed == (if m == w.owner[i].value then c.consumed + [b] else c.consumed)
    && c'.received == (if m == made then c.received + [b] else c.received)
  }

  lemma ReadEffect(w: World, h: nat)
    requires Inv(w) && h in w.handles && Available(w.net, w.handles[h]) != 0
    ensures h in w.made && w.handles[h].cs.Shared?
    ensures Took(w, ReadStep(w, h), w.handles[h].cs.slot, w.made[h])
    ensures Peek(w.net, w.handles[h]) == Byte(Unread(w.net.clients[w.handles[h].cs.slot])[0])
  {
    var i := w.handles[h].cs.slot;
    assert HandleStamped(w, h) && SlotStamped(w, i) && SlotOwned(w.net, i);
    AdvanceUnread(w.net.clients[i]);
  }

  lemma ReadStamped(w: World, h: nat)
    requires Inv(w) && h in w.handles && Available(w.net, w.handles[h]) != 0
    ensures Stamped(ReadStep(w, h))
  {
    ReadEffect(w, h);
    StampedFrame(w, ReadStep(w, h));
  }

  lemma MoveOne(a: seq<byte>, b: seq<byte>)
    requires b != []
    ensures (a + [b[0]]) + b[1..] == a + b
  {
  }

  lemma TookConn(w: World, w': World, i: Index, made: nat, m: nat)
    requires Took(w, w', i, made) && m < |w.conns| && ConnOk(w, m)
    ensures ConnOk(w', m)
  {
    assert ConnTook(w, w', i, made, m);
    var j := w.conns[m].slot;
    if m == w.owner[i].value {
      MoveOne(w.conns[m].consumed, Unread(w.net.clients[i]));
      assert Current(w', m);
    } else if j == i {
      assert !Current(w, m) && !Current(w', m);
    } else {
      assert w'.net.clients[j] == w.net.clients[j];
      assert Current(w, m) <==> Current(w', m);
    }
  }

  lemma ReadKeeps(w: World, h: nat)
    requires Inv(w) && h in w.handles
    ensures Inv(ReadStep(w, h))
  {
    ReadOwned(w.net, w.handles[h]);
    if Available(w.net, w.handles[h]) != 0 {
      ReadStamped(w, h);
      forall m: nat | m < |ReadStep(w, h).conns| ensures ConnOk(ReadStep(w, h), m) {
        ReadEffect(w, h);
        assert ConnOk(w, m);
        TookConn(w, ReadStep(w, h), w.handles[h].cs.slot, w.made[h], m);
      }
    }
  }

  lemma PcbStepKeeps(w: World, pcbs: map<nat, Pcb>)
    requires Inv(w) && Owned(w.net.(pcbs := pcbs))
    ensures Inv(w.(net := w.net.(pcbs := pcbs)))
  {
    EmptyingKeeps(w, w.net.(pcbs := pcbs), w.handles);
    NothingLeaves(w, w.net.(pcbs := pcbs));
  }

  lemma AvailableCallKeeps(w: World, h: nat)
    requires Inv(w) && Enabled(w, AvailableCall(h))
    ensures Inv(Apply(w, AvailableCall(h)))
  {
    var scan := ServerAvailable(w.net);
    ScanFinds(w.net, w.net.lastClient, |w.net.clients|);
    var net := w.net.(lastClient := scan.cursor);
    forall j: Index ensures SlotOwned(net, j) { assert SlotOwned(w.net, j); }
    forall d | d in net.pcbs ensures PcbOwned(net, d) { assert PcbOwned(w.net, d); }
    EmptyingKeeps(w, net, w.handles);
    NothingLeaves(w, net);
    BindKeeps(w.(net := net), h, scan.found);
  }

  lemma DestroyKeeps(w: World, h: nat)
    requires Inv(w)
    ensures Inv(w.(handles := w.handles - {h}, made := w.made - {h}))
  {
    var w' := w.(handles := w.handles - {h}, made := w.made - {h});
    forall j: Index ensures SlotStamped(w', j) { assert SlotStamped(w, j); }
    forall x | x in w'.handles ensures HandleStamped(w', x) { assert HandleStamped(w, x); }
    forall m: nat | m < |w.conns| ensures ConnOk(w', m) { assert ConnOk(w, m); }
  }

  lemma StepKeeps(w: World, e: Event)
    requires Inv(w) && Enabled(w, e) && Clean(e)
    ensures Inv(Apply(w, e))
  {
    match e
    case Accept(c, port) => AcceptKeeps(w, c, port);
    case Deliver(c, data) => DeliverKeeps(w, c, data);
    case Fin(c, st, r) => FinKeeps(w, c, st, r);
    case Reset(c) => ResetKeeps(w, c);
    case SetState(c, st) =>
      PcbStepOwned(w.net, c, Apply(w, e).net.pcbs);
      PcbStepKeeps(w, Apply(w, e).net.pcbs);
    case Expire(c) =>
      PcbStepOwned(w.net, c, Apply(w, e).net.pcbs);
      PcbStepKeeps(w, Apply(w, e).net.pcbs);
    case Retry(c, r) =>
      assert PcbOwned(w.net, c);
      PcbStepOwned(w.net, c, Apply(w, e).net.pcbs);
      PcbStepKeeps(w, Apply(w, e).net.pcbs);
    case AvailableCall(h) => AvailableCallKeeps(w, h);
    case AcceptCall(h) => AcceptCallKeeps(w, h);
    case Copy(h, src) => CopyKeeps(w, h, src);
    case Destroy(h) => DestroyKeeps(w, h);
    case ReadCall(h) => ReadKeeps(w, h);
    case StopCall(h, r) => StopKeeps(w, h, r);
  }
}
