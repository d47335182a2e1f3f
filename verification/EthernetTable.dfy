/**
 The slot table of `EthernetServer` and the handles (`EthernetClient`) that point into it,
 as functions on values: one function per lwIP callback and per handle operation.

 A received chain of pbufs is kept here as the sequence of its payloads; module
 `EthernetServer` holds the pointers, reference counts and `tot_len` fields and refines this one.
 Addresses of lwIP objects are positive numbers and NULL is 0.
 */
module EthernetTable {

  const MAX_CLIENTS: nat := 8
  const NULL: nat := 0
  const U16: nat := 0x1_0000

  datatype Option<+T> = None | Some(value: T)

  type byte = b: int | 0 <= b < 256
  type Index = i: nat | i < MAX_CLIENTS

  /** The states of section 3.3.2 of RFC 9293. */
  datatype TcpState =
    | CLOSED | LISTEN | SYN_SENT | SYN_RCVD | ESTABLISHED | FIN_WAIT_1
    | FIN_WAIT_2 | CLOSE_WAIT | CLOSING | LAST_ACK | TIME_WAIT

  /** What `tcp_arg` installed: nothing, the listening server, or a slot of the table. */
  datatype Arg = NoArg | ServerArg | SlotArg(slot: Index)

  /** `recv`, `err` and `poll` say whether a callback is installed. */
  datatype Pcb = Pcb(state: TcpState, remotePort: nat, arg: Arg, recv: bool, err: bool, poll: bool)

  /** `struct client`. `segments` are the payloads of the chain at `p`; `p == NULL` is `[]`. */
  datatype Slot = Slot(port: nat, segments: seq<seq<byte>>, cpcb: nat, read: nat,
                       generation: nat, claimed: bool)

  const FREE_SLOT := Slot(0, [], NULL, 0, 0, false)

  type Table = s: seq<Slot> | |s| == MAX_CLIENTS witness seq(MAX_CLIENTS, _ => FREE_SLOT)

  datatype Net = Net(clients: Table, generation: nat, lastClient: Index, pcbs: map<nat, Pcb>)

  /** `cs` is the handle's own `client_state` (named by the handle) or a slot of the table. */
  datatype Target = Own(handle: nat) | Shared(slot: Index)
  datatype Handle = Handle(cs: Target, generation: nat, connected: bool)

  /** What lwIP does in `tcp_close`: free the pcb, move it on to a closing state, or fail. */
  datatype CloseResult = Freed | Moved(state: TcpState) | Failed

  datatype ReadResult = NoData | Byte(value: byte) | Wild

  // ---- the byte queue of a slot -------------------------------------------------------

  function Flatten(segments: seq<seq<byte>>): seq<byte> {
    if segments == [] then [] else segments[0] + Flatten(segments[1..])
  }

  lemma {:induction false} FlattenConcat(a: seq<seq<byte>>, b: seq<seq<byte>>)
    ensures Flatten(a + b) == Flatten(a) + Flatten(b)
  {
    if a == [] {
      assert a + b == b;
    } else {
      assert (a + b)[1..] == a[1..] + b;
      FlattenConcat(a[1..], b);
    }
  }

  /** The 16-bit `tot_len` of the first pbuf of a chain. */
  function TotLen(segments: seq<seq<byte>>): nat {
    |Flatten(segments)| % U16
  }

  predicate NonEmpty(segments: seq<seq<byte>>) {
    forall k | 0 <= k < |segments| :: segments[k] != []
  }

  /** The read offset lies inside the first pbuf; an empty queue of a live slot starts at 0. */
  predicate QueueOk(s: Slot) {
    && NonEmpty(s.segments)
    && (s.segments != [] ==> s.read < |s.segments[0]|)
    && (s.segments == [] && s.cpcb != NULL ==> s.read == 0)
  }

  /** The bytes delivered to the slot and not yet read. */
  function Unread(s: Slot): seq<byte> {
    if s.segments == [] || s.read > |s.segments[0]| then []
    else s.segments[0][s.read..] + Flatten(s.segments[1..])
  }

  // ---- lwIP calls made by the callbacks -----------------------------------------------

  function TcpClose(pcbs: map<nat, Pcb>, c: nat, r: CloseResult): map<nat, Pcb>
    requires c in pcbs
  {
    match r
    case Freed => pcbs - {c}
    case Moved(st) => pcbs[c := pcbs[c].(state := st)]
    case Failed => pcbs[c := pcbs[c].(poll := true)]
  }

  function Detach(pcbs: map<nat, Pcb>, c: nat): map<nat, Pcb>
    requires c in pcbs
  {
    pcbs[c := pcbs[c].(arg := NoArg, recv := false, err := false)]
  }

  // ---- callbacks ------------------------------------------------------------------------

  function NextGeneration(g: nat): nat {
    if (g + 1) % U16 == 0 then 1 else (g + 1) % U16
  }

  function FirstFree(clients: Table, from: nat): (r: Option<Index>)
    requires from <= MAX_CLIENTS
    ensures r.None? ==> forall i | from <= i < MAX_CLIENTS :: clients[i].port != 0
    ensures r.Some? ==> from <= r.value && clients[r.value].port == 0
    ensures r.Some? ==> forall i | from <= i < r.value :: clients[i].port != 0
    decreases MAX_CLIENTS - from
  {
    if from == MAX_CLIENTS then None
    else if clients[from].port == 0 then Some(from)
    else FirstFree(clients, from + 1)
  }

  /** `do_accept`: the new connection takes the first free slot, under a fresh stamp. */
  function DoAccept(net: Net, c: nat): Net
    requires c in net.pcbs
  {
    match FirstFree(net.clients, 0)
    case None => net
    case Some(i) =>
      var g := NextGeneration(net.generation);
      net.(clients := net.clients[i := Slot(net.pcbs[c].remotePort, [], c, 0, g, false)],
           generation := g,
           pcbs := net.pcbs[c := net.pcbs[c].(arg := SlotArg(i), recv := true, err := true)])
  }

  predicate Represents(net: Net, arg: Arg, c: nat) {
    arg.SlotArg? && net.clients[arg.slot].cpcb == c
  }

  function CloseSlot(s: Slot): Slot {
    s.(read := 0, port := 0, segments := [], cpcb := NULL)
  }

  /** `do_close`: the pcb loses its callbacks; the slot is emptied if it still is this connection's. */
  function DoClose(net: Net, arg: Arg, c: nat, r: CloseResult): Net
    requires c in net.pcbs
  {
    var pcbs := net.pcbs[c := net.pcbs[c].(poll := false)];
    if Represents(net, arg, c) then
      net.(clients := net.clients[arg.slot := CloseSlot(net.clients[arg.slot])],
           pcbs := TcpClose(Detach(pcbs, c), c, r))
    else
      net.(pcbs := Detach(pcbs, c))
  }

  /** `do_recv` with data; callable with ERR_OK exactly when `Represents`. */
  function DoRecv(net: Net, arg: Arg, c: nat, data: seq<seq<byte>>): Net {
    if Represents(net, arg, c) then
      var s := net.clients[arg.slot];
      net.(clients := net.clients[arg.slot := s.(segments := s.segments + data)])
    else
      net
  }

  /** `do_err`: lwIP has freed the pcb; only the slot named by the callback argument is touched. */
  function DoErr(net: Net, arg: Arg): Net {
    if arg.SlotArg? then
      net.(clients := net.clients[arg.slot := CloseSlot(net.clients[arg.slot])])
    else
      net
  }

  // ---- server calls of the sketch --------------------------------------------------------

  predicate Live(net: Net, i: Index) {
    var s := net.clients[i];
    s.port != 0 && s.cpcb != NULL && s.cpcb in net.pcbs && net.pcbs[s.cpcb].state == ESTABLISHED
  }

  /** The test `available()` makes on one slot. */
  predicate Pending(net: Net, i: Index) {
    var s := net.clients[i];
    Live(net, i) && s.segments != [] && TotLen(s.segments) > s.read
  }

  datatype Scan = Scan(found: Option<Index>, cursor: Index)

  /** Round robin over `left` slots, starting after the cursor. */
  function ScanFrom(net: Net, cursor: Index, left: nat): Scan
    decreases left
  {
    if left == 0 then Scan(None, cursor)
    else
      var next: Index := (cursor + 1) % MAX_CLIENTS;
      if Pending(net, next) then Scan(Some(next), next) else ScanFrom(net, next, left - 1)
  }

  lemma {:induction false} ScanFinds(net: Net, cursor: Index, left: nat)
    ensures var r := ScanFrom(net, cursor, left); r.found.Some? ==> Pending(net, r.found.value) && r.cursor == r.found.value
    decreases left
  {
    if left > 0 { ScanFinds(net, (cursor + 1) % MAX_CLIENTS, left - 1); }
  }

  function ServerAvailable(net: Net): Scan {
    ScanFrom(net, net.lastClient, |net.clients|)
  }

  predicate Unclaimed(net: Net, i: Index) {
    Live(net, i) && !net.clients[i].claimed
  }

  function FirstUnclaimed(net: Net, from: nat): (r: Option<Index>)
    requires from <= MAX_CLIENTS
    ensures r.None? ==> forall i: Index | from <= i :: !Unclaimed(net, i)
    ensures r.Some? ==> from <= r.value && Unclaimed(net, r.value)
    ensures r.Some? ==> forall i: Index | from <= i < r.value :: !Unclaimed(net, i)
    decreases MAX_CLIENTS - from
  {
    if from == MAX_CLIENTS then None
    else if Unclaimed(net, from) then Some(from)
    else FirstUnclaimed(net, from + 1)
  }

  function Claim(net: Net, i: Index): Net {
    net.(clients := net.clients[i := net.clients[i].(claimed := true)])
  }

  // ---- handles -----------------------------------------------------------------------------

  /** The constructor from a slot pointer, `id` being the new handle's own storage. */
  function MakeHandle(net: Net, found: Option<Index>, id: nat): Handle {
    match found
    case None => Handle(Own(id), 0, false)
    case Some(i) => Handle(Shared(i), net.clients[i].generation, true)
  }

  /** `copyFrom`: a self-owned source is re-pointed at the copy's own storage. */
  function CopyFrom(id: nat, otherId: nat, other: Handle): Handle {
    Handle(if other.cs == Own(otherId) then Own(id) else other.cs, other.generation, other.connected)
  }

  predicate Stale(net: Net, h: Handle) {
    h.cs.Shared? && net.clients[h.cs.slot].generation != h.generation
  }

  /** A handle that reaches a slot of the table. */
  predicate Acts(net: Net, h: Handle) {
    h.cs.Shared? && !Stale(net, h)
  }

  function Available(net: Net, h: Handle): int {
    if !Acts(net, h) || net.clients[h.cs.slot].segments == [] then 0
    else TotLen(net.clients[h.cs.slot].segments) - net.clients[h.cs.slot].read
  }

  /** The byte at the read offset of the first pbuf; `Wild` is an access outside its payload. */
  function Front(s: Slot): ReadResult
    requires s.segments != []
  {
    if s.read < |s.segments[0]| then Byte(s.segments[0][s.read]) else Wild
  }

  function Peek(net: Net, h: Handle): ReadResult {
    if Available(net, h) == 0 then NoData else Front(net.clients[h.cs.slot])
  }

  /** Drop one byte: the first pbuf is released once its last byte has been read. */
  function Advance(s: Slot): Slot
    requires s.segments != []
  {
    if s.read + 1 == |s.segments[0]| then s.(read := 0, segments := s.segments[1..])
    else s.(read := s.read + 1)
  }

  function ReadLocked(net: Net, h: Handle): Net {
    if Available(net, h) == 0 then net
    else net.(clients := net.clients[h.cs.slot := Advance(net.clients[h.cs.slot])])
  }

  /** `stop()`: the read offset is left behind, the rest of the slot is emptied. */
  function StopSlot(s: Slot): Slot {
    s.(port := 0, segments := [], cpcb := NULL)
  }

  function Stop(net: Net, h: Handle, r: CloseResult): Net {
    if !Acts(net, h) then net
    else
      var i := h.cs.slot;
      var c := net.clients[i].cpcb;
      net.(clients := net.clients[i := StopSlot(net.clients[i])],
           pcbs := if c in net.pcbs then TcpClose(Detach(net.pcbs, c), c, r) else net.pcbs)
  }

  function Status(net: Net, h: Handle): TcpState {
    if !Acts(net, h) then CLOSED
    else
      var c := net.clients[h.cs.slot].cpcb;
      if c in net.pcbs then net.pcbs[c].state else CLOSED
  }

  /** `connected()`; `_connected` counts for a self-owned client only. */
  predicate Connected(net: Net, h: Handle) {
    && !Stale(net, h)
    && (Available(net, h) != 0 || Status(net, h) == ESTABLISHED || (h.cs.Own? && h.connected))
  }

  // ---- queue facts used by the runs and by the refinement ----------------------------------

  lemma AdvanceUnread(s: Slot)
    requires QueueOk(s) && s.segments != []
    ensures Front(s) == Byte(Unread(s)[0])
    ensures Unread(Advance(s)) == Unread(s)[1..]
    ensures QueueOk(Advance(s))
  {
    var first, rest := s.segments[0], s.segments[1..];
    if s.read + 1 == |first| {
      assert first[s.read..] == [first[s.read]];
      if rest != [] {
        assert rest[0][0..] == rest[0];
        assert forall k | 0 <= k < |rest| :: rest[k] == s.segments[k + 1];
      }
    } else {
      assert first[s.read..][1..] == first[s.read + 1..];
      assert (first[s.read..] + Flatten(rest))[1..] == first[s.read..][1..] + Flatten(rest);
    }
  }

  lemma NonEmptyConcat(a: seq<seq<byte>>, b: seq<seq<byte>>)
    requires NonEmpty(a) && NonEmpty(b)
    ensures NonEmpty(a + b)
  {
  }

  lemma AppendUnread(s: Slot, data: seq<seq<byte>>)
    requires QueueOk(s) && s.cpcb != NULL && NonEmpty(data) && data != []
    ensures QueueOk(s.(segments := s.segments + data))
    ensures Unread(s.(segments := s.segments + data)) == Unread(s) + Flatten(data)
  {
    hide Flatten;
    NonEmptyConcat(s.segments, data);
    if s.segments == [] {
      assert s.segments + data == data;
      AllUnread(data);
    } else {
      AppendBehind(s.segments, data, s.read);
    }
  }

  lemma AllUnread(data: seq<seq<byte>>)
    requires data != []
    ensures data[0][0..] + Flatten(data[1..]) == Flatten(data)
  {
    assert data[0][0..] == data[0];
  }

  lemma AppendBehind(segments: seq<seq<byte>>, data: seq<seq<byte>>, read: nat)
    requires segments != [] && read <= |segments[0]|
    ensures (segments + data)[0] == segments[0]
    ensures segments[0][read..] + Flatten((segments + data)[1..]) == (segments[0][read..] + Flatten(segments[1..])) + Flatten(data)
  {
    hide Flatten;
    assert (segments + data)[1..] == segments[1..] + data;
    FlattenConcat(segments[1..], data);
  }

  /**
   `available()` is the number of unread bytes exactly while the chain is shorter than 2^16 bytes;
   past that, `tot_len` has wrapped.
   */
  lemma AvailableIsUnread(net: Net, h: Handle)
    requires Acts(net, h) && QueueOk(net.clients[h.cs.slot])
    ensures var s := net.clients[h.cs.slot];
            Available(net, h) == |Unread(s)| <==> |Flatten(s.segments)| < U16
  {
    var s := net.clients[h.cs.slot];
    if s.segments != [] {
      assert |Unread(s)| == |Flatten(s.segments)| - s.read;
    }
  }

  /** Slot `i` has a pcb that lwIP keeps in state ESTABLISHED. */
  predicate Established(net: Net, i: Index) {
    net.clients[i].cpcb in net.pcbs && net.pcbs[net.clients[i].cpcb].state == ESTABLISHED
  }

  /** Fewer bytes are queued than the 16-bit lengths count. */
  predicate Short(s: Slot) { |Flatten(s.segments)| < U16 }

  // ---- chains with a pbuf that carries no data ---------------------------------------------------

  /** What can happen to the queue of an open slot: one `read()`, or more data. */
  datatype QueueStep = Take | Append(data: seq<seq<byte>>)

  /** `available()` on a slot. */
  function Remaining(s: Slot): int {
    if s.segments == [] then 0 else TotLen(s.segments) - s.read
  }

  function QueueNext(s: Slot, q: QueueStep): Slot {
    match q
    case Take => if Remaining(s) == 0 then s else Advance(s)
    case Append(data) => s.(segments := s.segments + data)
  }

  /** No `read()` among the steps goes outside the payload of the first pbuf. */
  predicate ReadsInside(s: Slot, qs: seq<QueueStep>)
    decreases |qs|
  {
    qs != [] ==>
      && (qs[0].Take? && Remaining(s) != 0 ==> Front(s) != Wild)
      && ReadsInside(QueueNext(s, qs[0]), qs[1..])
  }

  predicate CleanSteps(qs: seq<QueueStep>) {
    forall k | 0 <= k < |qs| :: qs[k].Append? ==> qs[k].data != [] && NonEmpty(qs[k].data)
  }

  lemma {:induction false} CleanInside(s: Slot, qs: seq<QueueStep>)
    requires QueueOk(s) && s.cpcb != NULL && CleanSteps(qs)
    ensures ReadsInside(s, qs)
    decreases |qs|
  {
    if qs != [] {
      hide Unread, Flatten;
      match qs[0] {
        case Take => if s.segments != [] { AdvanceUnread(s); }
        case Append(data) => AppendUnread(s, data);
      }
      CleanInside(QueueNext(s, qs[0]), qs[1..]);
    }
  }

  function Takes(n: nat): seq<QueueStep> { seq(n, _ => Take) }

  /** Reading on reaches a pbuf without payload that has data behind it. */
  lemma {:induction false} RunsOutside(s: Slot, j: nat) returns (n: nat)
    requires j < |s.segments| - 1 && s.segments[j] == [] && s.segments[|s.segments| - 1] != []
    requires |Flatten(s.segments)| < U16 && s.read <= |s.segments[0]| && (s.segments[0] != [] ==> s.read < |s.segments[0]|)
    ensures !ReadsInside(s, Takes(n))
    decreases |Flatten(s.segments)| - s.read
  {
    LastCounts(s.segments);
    var first, rest := s.segments[0], s.segments[1..];
    assert Remaining(s) > 0;
    if first == [] {
      n := 1;
      assert Takes(1) == [Take];
    } else {
      var t := Advance(s);
      if s.read + 1 == |first| {
        n := RunsOutside(t, j - 1);
      } else {
        n := RunsOutside(t, j);
      }
      assert Takes(n + 1)[1..] == Takes(n);
      n := n + 1;
    }
  }

  lemma {:induction false} LastCounts(segments: seq<seq<byte>>)
    requires segments != [] && segments[|segments| - 1] != []
    ensures |Flatten(segments)| >= |segments[0]| && (|segments| > 1 ==> |Flatten(segments)| > |segments[0]|)
  {
    if |segments| > 1 { LastCounts(segments[1..]); }
  }

  /**
   The condition on a chain that is delivered to an open slot, with room left in the 16-bit length: reading,
   also after more data, never leaves a payload exactly when no pbuf of the chain is without one.
   */
  lemma EmptyPayloadExactly(s: Slot, data: seq<seq<byte>>)
    requires QueueOk(s) && s.cpcb != NULL && data != [] && |Flatten(s.segments)| + |Flatten(data)| + 1 < U16
    ensures (forall qs: seq<QueueStep> | CleanSteps(qs) :: ReadsInside(s.(segments := s.segments + data), qs)) <==> NonEmpty(data)
  {
    var s' := s.(segments := s.segments + data);
    if NonEmpty(data) {
      AppendUnread(s, data);
      forall qs: seq<QueueStep> | CleanSteps(qs)
        ensures ReadsInside(s', qs)
      {
        CleanInside(s', qs);
      }
    } else {
      EmptyPayloadWitness(s, data);
    }
  }

  lemma EmptyPayloadWitness(s: Slot, data: seq<seq<byte>>)
    requires QueueOk(s) && s.cpcb != NULL && !NonEmpty(data) && |Flatten(s.segments)| + |Flatten(data)| + 1 < U16
    ensures exists qs: seq<QueueStep> :: CleanSteps(qs) && !ReadsInside(s.(segments := s.segments + data), qs)
  {
    hide Flatten;
    var s' := s.(segments := s.segments + data);
    var k :| 0 <= k < |data| && data[k] == [];
    var more := [[0]];
    var t := QueueNext(s', Append(more));
    OneMore(s.segments, data, more);
    assert t.segments[|s.segments| + k] == [];
    var n := RunsOutside(t, |s.segments| + k);
    AppendThen(s', more, Takes(n));
  }

  lemma OneMore(a: seq<seq<byte>>, b: seq<seq<byte>>, more: seq<seq<byte>>)
    requires more == [[0]]
    ensures |Flatten(a + b + more)| == |Flatten(a)| + |Flatten(b)| + 1
  {
    FlattenConcat(a, b);
    FlattenConcat(a + b, more);
    assert Flatten(more) == [0] by { assert more[1..] == []; }
  }

  lemma AppendThen(s: Slot, more: seq<seq<byte>>, qs: seq<QueueStep>)
    requires more != [] && NonEmpty(more) && CleanSteps(qs) && !ReadsInside(QueueNext(s, Append(more)), qs)
    ensures CleanSteps([Append(more)] + qs) && !ReadsInside(s, [Append(more)] + qs)
  {
    assert ([Append(more)] + qs)[1..] == qs;
  }
}
