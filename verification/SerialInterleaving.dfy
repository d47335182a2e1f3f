/**
 `HardwareSerial` under interrupts: every step of `write`, `read`, `available` and `primeTransmit` can be
 followed by a run of `UARTIntHandler`, except where the code has disabled the interrupt. The two ring
 buffers are proved to be queues over all interleavings.
 */
module SerialInterleaving {
  import opened SerialRing

  /** Program points of `primeTransmit`. At `Advance` a byte is in the UART and still in the ring. */
  datatype Prime = Test | Disable | Loop | Advance | Enable | Done

  /** Program points of the sketch. */
  datatype Main =
    | Idle
    | WriteWait(c: byte) | WriteStore(c: byte) | WritePublish(c: byte) | WriteCheck | WritePrime(p: Prime)
    | ReadCheck | ReadFetch | ReadAdvance(c: byte)
    | AvailableFirst | AvailableSecond(ge: bool)

  /** Program points of the interrupt handler. */
  datatype Isr = Off | TxPrime(p: Prime, rx: bool) | RxLoop | RxStore(b: byte) | RxPublish(b: byte) | RxPrime(p: Prime)

  /**
   `fifo` is the UART's receive FIFO. The histories: `asked` of `write()` by the sketch, `written` to the
   transmit ring, `sent` to the UART, `arrived`
   at the UART, `accepted` into the receive ring, `dropped` by the handler, `taken` by `read()`; `fate` says
   of each byte fetched from the FIFO whether it was kept.
   */
  datatype Uart = Uart(tx: Ring, rx: Ring, enabled: bool, main: Main, isr: Isr, fifo: seq<byte>,
                       asked: seq<byte>, written: seq<byte>, sent: seq<byte>, arrived: seq<byte>, accepted: seq<byte>,
                       dropped: seq<byte>, fate: seq<bool>, taken: seq<byte>)

  datatype Event =
    | Arrive(b: byte) | CallWrite(c: byte) | CallRead | CallAvailable
    | MainStep | Interrupt(tx: bool, rx: bool) | IsrStep

  predicate Usable(u: Uart) { Ok(u.tx) && Ok(u.rx) }

  ghost predicate Enabled(u: Uart, e: Event) {
    match e
    case Arrive(_) => true
    case CallWrite(_) => u.main.Idle? && u.isr.Off?
    case CallRead => u.main.Idle? && u.isr.Off?
    case CallAvailable => u.main.Idle? && u.isr.Off?
    case MainStep => !u.main.Idle? && u.isr.Off?
    case Interrupt(_, _) => u.isr.Off? && u.enabled
    case IsrStep => !u.isr.Off?
  }

  // ---- one step ------------------------------------------------------------------------------

  function PrimeNext(u: Uart, p: Prime): Prime {
    match p
    case Test => if Empty(u.tx) then Done else Disable
    case Disable => Loop
    case Loop => if Empty(u.tx) then Enable else Advance
    case Advance => Loop
    case Enable => Done
    case Done => Done
  }

  function PrimeEffect(u: Uart, p: Prime): Uart
    requires Usable(u)
  {
    match p
    case Disable => u.(enabled := false)
    case Loop => if Empty(u.tx) then u else u.(sent := u.sent + [u.tx.buf[u.tx.r]])
    case Advance => u.(tx := u.tx.(r := Next(u.tx, u.tx.r)))
    case Enable => u.(enabled := true)
    case _ => u
  }

  function MainNext(u: Uart): Uart
    requires Usable(u)
  {
    match u.main
    case Idle => u
    case WriteWait(c) => if Full(u.tx) then u else u.(main := WriteStore(c))
    case WriteStore(c) => u.(tx := u.tx.(buf := u.tx.buf[u.tx.w := c]), main := WritePublish(c))
    case WritePublish(c) =>
      u.(tx := u.tx.(w := Next(u.tx, u.tx.w)), written := u.written + [c], main := WriteCheck)
    case WriteCheck => u.(main := if Empty(u.tx) then Idle else WritePrime(Test))
    case WritePrime(p) =>
      var next := PrimeNext(u, p);
      PrimeEffect(u, p).(main := if next.Done? then Idle else WritePrime(next))
    case ReadCheck => u.(main := if Empty(u.rx) then Idle else ReadFetch)
    case ReadFetch => u.(main := ReadAdvance(u.rx.buf[u.rx.r]))
    case ReadAdvance(c) => u.(rx := u.rx.(r := Next(u.rx, u.rx.r)), taken := u.taken + [c], main := Idle)
    case AvailableFirst => u.(main := AvailableSecond(u.rx.w >= u.rx.r))
    case AvailableSecond(_) => u.(main := Idle)
  }

  /** What `available()` returns: the branch was chosen earlier, the indices are read again. */
  function Answer(u: Uart): int
    requires u.main.AvailableSecond?
  {
    if u.main.ge then u.rx.w - u.rx.r else |u.rx.buf| - (u.rx.r - u.rx.w)
  }

  function IsrNext(u: Uart): Uart
    requires Usable(u)
  {
    match u.isr
    case Off => u
    case TxPrime(p, rx) =>
      var next := PrimeNext(u, p);
      PrimeEffect(u, p).(isr := if !next.Done? then TxPrime(next, rx) else if rx then RxLoop else Off)
    case RxLoop =>
      if u.fifo == [] then u.(isr := RxPrime(Test))
      else
        var full := Full(u.rx);
        var u' := u.(fifo := u.fifo[1..], fate := u.fate + [!full]);
        if full then u'.(isr := RxPrime(Test), dropped := u.dropped + [u.fifo[0]]) else u'.(isr := RxStore(u.fifo[0]))
    case RxStore(b) => u.(rx := u.rx.(buf := u.rx.buf[u.rx.w := b]), isr := RxPublish(b))
    case RxPublish(b) => u.(rx := u.rx.(w := Next(u.rx, u.rx.w)), accepted := u.accepted + [b], isr := RxLoop)
    case RxPrime(p) =>
      var next := PrimeNext(u, p);
      PrimeEffect(u, p).(isr := if next.Done? then Off else RxPrime(next))
  }

  function Apply(u: Uart, e: Event): Uart
    requires Usable(u)
  {
    match e
    case Arrive(b) => u.(fifo := u.fifo + [b], arrived := u.arrived + [b])
    case CallWrite(c) => u.(main := WriteWait(c), asked := u.asked + [c])
    case CallRead => u.(main := ReadCheck)
    case CallAvailable => u.(main := AvailableFirst)
    case MainStep => MainNext(u)
    case Interrupt(tx, rx) => u.(isr := if tx then TxPrime(Test, rx) else if rx then RxLoop else Off)
    case IsrStep => IsrNext(u)
  }

  // ---- the invariant ---------------------------------------------------------------------------

  /** The program point of `primeTransmit` in whichever context is running it. */
  function Priming(u: Uart): Prime {
    if u.main.WritePrime? && u.isr.Off? then u.main.p
    else match u.isr case TxPrime(p, _) => p case RxPrime(p) => p case _ => Done
  }

  /** Transmit side: what was sent, then what is queued, is what was written. */
  ghost predicate TxOk(u: Uart)
    requires Usable(u)
  {
    var q := Contents(u.tx);
    if Priming(u).Advance? then q != [] && u.sent != [] && u.sent[|u.sent| - 1] == q[0] && u.sent + q[1..] == u.written
    else u.sent + q == u.written
  }

  /** The byte the handler has fetched from the FIFO and not yet published. */
  function InHand(u: Uart): seq<byte> {
    match u.isr case RxStore(b) => [b] case RxPublish(b) => [b] case _ => []
  }

  /** The bytes of `s` with the given fate, in order. */
  function Picked(s: seq<byte>, fate: seq<bool>, kept: bool): seq<byte>
    requires |s| == |fate|
  {
    if s == [] then []
    else
      var n := |s| - 1;
      Picked(s[..n], fate[..n], kept) + (if fate[n] == kept then [s[n]] else [])
  }

  lemma PickedNext(s: seq<byte>, fate: seq<bool>, b: byte, f: bool, kept: bool)
    requires |s| == |fate|
    ensures Picked(s + [b], fate + [f], kept) == Picked(s, fate, kept) + (if f == kept then [b] else [])
  {
    assert (s + [b])[..|s|] == s && (fate + [f])[..|s|] == fate;
  }

  lemma {:induction false} PickedAll(s: seq<byte>, fate: seq<bool>)
    requires |s| == |fate| && Picked(s, fate, false) == []
    ensures Picked(s, fate, true) == s
  {
    if s != [] {
      var n := |s| - 1;
      PickedAll(s[..n], fate[..n]);
      assert s == s[..n] + [s[n]];
    }
  }

  /** What has arrived is what was fetched, then the FIFO; the accepted and the dropped bytes share the former. */
  ghost predicate Sorted(arrived: seq<byte>, fifo: seq<byte>, fate: seq<bool>, kept: seq<byte>, dropped: seq<byte>) {
    && |arrived| == |fate| + |fifo| && arrived[|fate|..] == fifo
    && kept == Picked(arrived[..|fate|], fate, true) && dropped == Picked(arrived[..|fate|], fate, false)
  }

  lemma Fetched(arrived: seq<byte>, fifo: seq<byte>, fate: seq<bool>, kept: seq<byte>, dropped: seq<byte>, f: bool)
    requires Sorted(arrived, fifo, fate, kept, dropped) && fifo != []
    ensures Sorted(arrived, fifo[1..], fate + [f], if f then kept + [fifo[0]] else kept,
                   if f then dropped else dropped + [fifo[0]])
  {
    var n := |fate|;
    assert arrived[..n + 1] == arrived[..n] + [fifo[0]];
    PickedNext(arrived[..n], fate, fifo[0], f, true);
    PickedNext(arrived[..n], fate, fifo[0], f, false);
  }

  /** Receive side: what was taken, then what is queued, is what was accepted, and no byte is reordered or forgotten. */
  ghost predicate RxOk(u: Uart)
    requires Usable(u)
  {
    && u.taken + Contents(u.rx) == u.accepted
    && Sorted(u.arrived, u.fifo, u.fate, u.accepted + InHand(u), u.dropped)
  }

  /** `primeTransmit` with the interrupt disabled. */
  predicate Critical(p: Prime) { p.Loop? || p.Advance? || p.Enable? }

  ghost predicate MainOk(u: Uart)
    requires Usable(u)
  {
    && (!u.main.WriteCheck? && !u.main.WritePrime? ==> Empty(u.tx))
    && match u.main
       case WriteStore(c) => !Full(u.tx)
       case WritePublish(c) => !Full(u.tx) && u.tx.buf[u.tx.w] == c
       case WritePrime(p) =>
         && !p.Done? && (Critical(p) ==> !u.enabled && u.isr.Off?)
         && (p.Advance? ==> !Empty(u.tx)) && (p.Enable? ==> Empty(u.tx))
       case ReadFetch => !Empty(u.rx)
       case ReadAdvance(c) => !Empty(u.rx) && u.rx.buf[u.rx.r] == c
       case AvailableSecond(ge) => !ge ==> u.rx.w < u.rx.r
       case _ => true
  }

  ghost predicate IsrOk(u: Uart)
    requires Usable(u)
  {
    match u.isr
    case Off => (u.main.WritePrime? && Critical(u.main.p)) || u.enabled
    case TxPrime(p, _) => PrimeOk(u, p)
    case RxLoop => u.enabled
    case RxStore(b) => !Full(u.rx) && u.enabled
    case RxPublish(b) => !Full(u.rx) && u.rx.buf[u.rx.w] == b && u.enabled
    case RxPrime(p) => PrimeOk(u, p)
  }

  ghost predicate PrimeOk(u: Uart, p: Prime)
    requires Usable(u)
  {
    !p.Done? && (p.Advance? ==> !Empty(u.tx)) && (Critical(p) || u.enabled)
  }

  /** The byte `write()` was called with and has not put into the ring yet. */
  function Unwritten(m: Main): seq<byte> {
    match m case WriteWait(c) => [c] case WriteStore(c) => [c] case WritePublish(c) => [c] case _ => []
  }

  ghost predicate Inv(u: Uart) {
    Usable(u) && TxOk(u) && RxOk(u) && MainOk(u) && IsrOk(u) && u.asked == u.written + Unwritten(u.main)
  }

  // ---- every step keeps it ---------------------------------------------------------------------------

  lemma PrimeKeeps(u: Uart, p: Prime)
    requires Usable(u) && TxOk(u) && Priming(u) == p && !p.Done? && (p.Advance? ==> !Empty(u.tx))
    ensures var u', next := PrimeEffect(u, p), PrimeNext(u, p);
            && Usable(u') && u'.rx == u.rx && u'.written == u.written
            && (next.Advance? ==>
                  && !Empty(u'.tx) && Contents(u'.tx) != [] && u'.sent != []
                  && u'.sent[|u'.sent| - 1] == Contents(u'.tx)[0] && u'.sent + Contents(u'.tx)[1..] == u.written)
            && (!next.Advance? ==> u'.sent + Contents(u'.tx) == u.written)
            && (next.Done? || next.Enable? ==> Empty(u'.tx) || p.Enable?)
  {
    hide Contents;
    var q := Contents(u.tx);
    EmptyFull(u.tx);
    match p
    case Loop =>
      if !Empty(u.tx) {
        Consume(u.tx);
        assert (u.sent + [q[0]]) + q[1..] == u.sent + q;
      }
    case Advance =>
      Consume(u.tx);
    case _ =>
  }

  lemma MainPrimeKeeps(u: Uart)
    requires Inv(u) && u.main.WritePrime? && u.isr.Off?
    ensures Inv(MainNext(u))
  {
    hide Contents;
    PrimeKeeps(u, u.main.p);
  }

  /** A step of `primeTransmit` inside the handler leaves the sketch's program point valid. */
  lemma IsrPrimeMain(u: Uart, p: Prime)
    requires Inv(u) && !u.isr.Off? && Priming(u) == p && PrimeOk(u, p)
    ensures var u' := PrimeEffect(u, p);
            && Usable(u') && MainOk(u') && (PrimeNext(u, p).Done? ==> u'.enabled)
            && (!PrimeNext(u, p).Done? ==> PrimeOk(u', PrimeNext(u, p)))
  {
    hide Contents;
    PrimeKeeps(u, p);
    NextIs(u.tx, u.tx.r);
  }

  lemma IsrPrimeKeeps(u: Uart)
    requires Inv(u) && (u.isr.TxPrime? || u.isr.RxPrime?)
    ensures Inv(IsrNext(u))
  {
    hide Contents, MainOk;
    IsrPrimeMain(u, u.isr.p) by { assert IsrOk(u); }
    PrimeKeeps(u, u.isr.p) by { PrimePoint(u); }
    MainFrame(PrimeEffect(u, u.isr.p), IsrNext(u));
  }

  lemma PrimePoint(u: Uart)
    requires Usable(u) && IsrOk(u) && (u.isr.TxPrime? || u.isr.RxPrime?)
    ensures !u.isr.p.Done? && (u.isr.p.Advance? ==> !Empty(u.tx))
  {
  }

  /** The sketch's side does not look at the handler's program point, outside the critical section. */
  lemma MainFrame(u: Uart, u': Uart)
    requires Usable(u) && MainOk(u) && !u.isr.Off? && u' == u.(isr := u'.isr)
    ensures MainOk(u') && (u.main.WritePrime? ==> !Critical(u.main.p))
  {
  }

  lemma WriteKeeps(u: Uart)
    requires Inv(u) && u.isr.Off? && (u.main.WriteWait? || u.main.WriteStore? || u.main.WritePublish? || u.main.WriteCheck?)
    ensures Inv(MainNext(u))
  {
    hide Contents;
    match u.main
    case WriteStore(c) => StoreKeeps(u.tx, c);
    case WritePublish(c) =>
      Publish(u.tx);
      assert u.sent + (Contents(u.tx) + [c]) == (u.sent + Contents(u.tx)) + [c];
    case _ =>
  }

  lemma ReadKeeps(u: Uart)
    requires Inv(u) && u.isr.Off? && (u.main.ReadCheck? || u.main.ReadFetch? || u.main.ReadAdvance?)
    ensures Inv(MainNext(u))
  {
    hide Contents;
    if u.main.ReadAdvance? {
      Consume(u.rx);
      var q := Contents(u.rx);
      assert (u.taken + [q[0]]) + q[1..] == u.taken + q;
    }
  }

  lemma FetchKeeps(u: Uart)
    requires Inv(u) && u.isr.RxLoop?
    ensures Inv(IsrNext(u))
  {
    hide Contents, Sorted;
    assert u.accepted + [] == u.accepted;
    if u.fifo != [] { Fetched(u.arrived, u.fifo, u.fate, u.accepted, u.dropped, !Full(u.rx)); }
  }

  lemma ReceiveKeeps(u: Uart)
    requires Inv(u) && (u.isr.RxStore? || u.isr.RxPublish?)
    ensures Inv(IsrNext(u))
  {
    hide Contents, Sorted;
    match u.isr
    case RxStore(b) => StoreKeeps(u.rx, b);
    case RxPublish(b) =>
      assert (u.accepted + [b]) + [] == u.accepted + [b];
      Publish(u.rx);
      NextIs(u.rx, u.rx.w);
      assert u.taken + (Contents(u.rx) + [b]) == (u.taken + Contents(u.rx)) + [b];
  }

  lemma StepKeeps(u: Uart, e: Event)
    requires Inv(u) && Enabled(u, e)
    ensures Inv(Apply(u, e))
  {
    hide Contents;
    match e
    case MainStep =>
      match u.main {
        case WritePrime(_) => MainPrimeKeeps(u);
        case WriteWait(_) => WriteKeeps(u);
        case WriteStore(_) => WriteKeeps(u);
        case WritePublish(_) => WriteKeeps(u);
        case WriteCheck => WriteKeeps(u);
        case ReadCheck => ReadKeeps(u);
        case ReadFetch => ReadKeeps(u);
        case ReadAdvance(_) => ReadKeeps(u);
        case _ =>
      }
    case IsrStep =>
      if u.isr.TxPrime? || u.isr.RxPrime? { IsrPrimeKeeps(u); } else if u.isr.RxLoop? { FetchKeeps(u); } else { ReceiveKeeps(u); }
    case Arrive(b) =>
      assert (u.arrived + [b])[..|u.fate|] == u.arrived[..|u.fate|];
    case _ =>
  }

  // ---- runs --------------------------------------------------------------------------------------------

  ghost predicate Runs(u: Uart, es: seq<Event>)
    decreases |es|
  {
    es == [] || (Usable(u) && Enabled(u, es[0]) && Runs(Apply(u, es[0]), es[1..]))
  }

  ghost function Run(u: Uart, es: seq<Event>): Uart
    requires Runs(u, es)
    decreases |es|
  {
    if es == [] then u else Run(Apply(u, es[0]), es[1..])
  }

  /** After `begin()`, with buffers of the given sizes; `setBufferSize` ignores 0. */
  function Begun(txSize: nat, rxSize: nat): Uart
    requires txSize > 0 && rxSize > 0
  {
    Uart(Ring(seq(txSize, _ => 0), 0, 0), Ring(seq(rxSize, _ => 0), 0, 0), true, Idle, Off, [], [], [], [], [], [], [], [], [])
  }

  lemma {:induction false} RunKeeps(u: Uart, es: seq<Event>)
    requires Inv(u) && Runs(u, es)
    ensures Inv(Run(u, es))
    decreases |es|
  {
    hide Apply, Enabled, Inv;
    if es != [] {
      StepKeeps(u, es[0]);
      RunKeeps(Apply(u, es[0]), es[1..]);
    }
  }

  lemma Reachable(txSize: nat, rxSize: nat, es: seq<Event>)
    requires txSize > 0 && rxSize > 0 && Runs(Begun(txSize, rxSize), es)
    ensures Inv(Run(Begun(txSize, rxSize), es))
  {
    RunKeeps(Begun(txSize, rxSize), es);
  }

  /**
   Transmit over every interleaving: the UART gets the bytes `write()` was called with in order, each once; and
   `write()` does not return before all of them have been handed over.
   */
  lemma SentInOrder(txSize: nat, rxSize: nat, es: seq<Event>)
    requires txSize > 0 && rxSize > 0 && Runs(Begun(txSize, rxSize), es)
    ensures var u := Run(Begun(txSize, rxSize), es);
            u.sent <= u.asked && (u.main.Idle? ==> u.sent == u.asked)
  {
    hide Contents;
    Reachable(txSize, rxSize, es);
    var u := Run(Begun(txSize, rxSize), es);
    EmptyFull(u.tx);
  }

  /**
   Receive over every interleaving: `read()` returns the accepted bytes in order, each once; the bytes that
   arrived are the accepted, the dropped and the one in hand, merged in the order of their fates, and then the
   FIFO. While no byte is dropped, what was read is a prefix of what arrived.
   */
  lemma ReceivedInOrder(txSize: nat, rxSize: nat, es: seq<Event>)
    requires txSize > 0 && rxSize > 0 && Runs(Begun(txSize, rxSize), es)
    ensures var u := Run(Begun(txSize, rxSize), es);
            && Usable(u) && u.taken + Contents(u.rx) == u.accepted && |Contents(u.rx)| < |u.rx.buf|
            && Sorted(u.arrived, u.fifo, u.fate, u.accepted + InHand(u), u.dropped)
            && (u.dropped == [] ==> u.taken <= u.arrived)
  {
    hide Run, Runs, Apply, Contents, MainOk, IsrOk, TxOk, Sorted;
    Reachable(txSize, rxSize, es);
    var u := Run(Begun(txSize, rxSize), es);
    if u.dropped == [] { AllKept(u.arrived, u.fifo, u.fate, u.accepted + InHand(u)); }
  }

  lemma AllKept(arrived: seq<byte>, fifo: seq<byte>, fate: seq<bool>, kept: seq<byte>)
    requires Sorted(arrived, fifo, fate, kept, [])
    ensures kept <= arrived
  {
    PickedAll(arrived[..|fate|], fate);
  }

  /**
   `read()` over every interleaving: it returns nothing just when the ring is empty at its test, and otherwise
   the byte that was first in the ring then, whatever arrives in the meantime.
   */
  lemma ReadOutcome(txSize: nat, rxSize: nat, es: seq<Event>)
    requires txSize > 0 && rxSize > 0 && Runs(Begun(txSize, rxSize), es)
    ensures var u := Run(Begun(txSize, rxSize), es);
            && Usable(u)
            && (u.main.ReadCheck? ==> (MainNext(u).main.Idle? <==> Contents(u.rx) == []) && MainNext(u).taken == u.taken)
            && (u.main.ReadCheck? && Contents(u.rx) != [] ==> MainNext(u).main.ReadFetch?)
            && (u.main.ReadFetch? ==> Contents(u.rx) != [] && MainNext(u).main == ReadAdvance(Contents(u.rx)[0]))
            && (u.main.ReadAdvance? ==>
                  && Contents(u.rx) != [] && MainNext(u).main.Idle? && MainNext(u).taken == u.taken + [Contents(u.rx)[0]]
                  && Usable(MainNext(u)) && Contents(MainNext(u).rx) == Contents(u.rx)[1..])
  {
    hide Run, Runs, Contents, TxOk, RxOk, IsrOk;
    Reachable(txSize, rxSize, es);
    var u := Run(Begun(txSize, rxSize), es);
    EmptyFull(u.rx);
    if !Empty(u.rx) { Consume(u.rx); }
  }

  /** A byte is thrown away only by the handler, and only when the ring holds size - 1 bytes. */
  lemma LostOnlyWhenFull(txSize: nat, rxSize: nat, es: seq<Event>, e: Event)
    requires txSize > 0 && rxSize > 0 && Runs(Begun(txSize, rxSize), es)
    requires var u := Run(Begun(txSize, rxSize), es); Usable(u) && Enabled(u, e) && Apply(u, e).dropped != u.dropped
    ensures var u := Run(Begun(txSize, rxSize), es);
            && e.IsrStep? && u.fifo != [] && Apply(u, e).dropped == u.dropped + [u.fifo[0]]
            && |Contents(u.rx)| == |u.rx.buf| - 1
  {
    hide Run, Runs, Contents, MainOk, IsrOk, TxOk, RxOk;
    Reachable(txSize, rxSize, es);
    EmptyFull(Run(Begun(txSize, rxSize), es).rx);
  }

  // ---- available() ---------------------------------------------------------------------------------------

  /** The number of steps the sketch takes. */
  function MainSteps(es: seq<Event>): nat {
    if es == [] then 0 else (if es[0].MainStep? then 1 else 0) + MainSteps(es[1..])
  }

  /** `es` leads from a call of `available()` to the point where it returns. */
  ghost predicate Answers(u: Uart, es: seq<Event>) {
    && Usable(u) && Runs(Apply(u, CallAvailable), es) && MainSteps(es) == 1
    && var v := Run(Apply(u, CallAvailable), es); v.main.AvailableSecond? && v.isr.Off? && Usable(v)
  }

  /** The branch chosen at the first read is still the right one at the second. */
  predicate Settled(u: Uart) {
    match u.main
    case AvailableFirst => u.rx.r == 0 || u.rx.w < u.rx.r
    case AvailableSecond(ge) => if ge then u.rx.r == 0 else u.rx.w < u.rx.r
    case _ => false
  }

  lemma SettledStep(u: Uart, e: Event)
    requires Inv(u) && Settled(u) && Enabled(u, e) && !(e.MainStep? && u.main.AvailableSecond?)
    ensures Settled(Apply(u, e))
    ensures Apply(u, e).main.AvailableFirst? <==> u.main.AvailableFirst? && !e.MainStep?
  {
    hide Contents, RxOk, TxOk;
    if e.IsrStep? && u.isr.RxPublish? { NextIs(u.rx, u.rx.w); }
  }

  lemma {:induction false} StaysSettled(u: Uart, es: seq<Event>)
    requires Inv(u) && Settled(u) && Runs(u, es) && MainSteps(es) == if u.main.AvailableFirst? then 1 else 0
    ensures Inv(Run(u, es)) && Settled(Run(u, es)) && Run(u, es).main.AvailableSecond?
    decreases |es|
  {
    hide Apply, Enabled, Inv, Settled;
    if es == [] {
      assert u.main.AvailableSecond? by { SettledMain(u); }
    } else {
      SettledMain(u);
      SettledStep(u, es[0]);
      StepKeeps(u, es[0]);
      StaysSettled(Apply(u, es[0]), es[1..]);
    }
  }

  lemma SettledMain(u: Uart)
    requires Settled(u)
    ensures u.main.AvailableFirst? || u.main.AvailableSecond?
  {
  }

  /** With the write index at or past a read index that is not 0, enough arrivals take it round the end. */
  lemma WrapsAround(u: Uart) returns (es: seq<Event>)
    requires Inv(u) && u.main.Idle? && u.isr.Off? && 0 < u.rx.r <= u.rx.w
    ensures Answers(u, es) && Answer(Run(Apply(u, CallAvailable), es)) < 0
  {
    hide Inv, Runs, Run, Apply, Enabled, MainSteps, Contents;
    var first := Asked(u);
    var k := |u.rx.buf| - u.rx.w;
    var more := Arrivals(first, k);
    var full := Run(first, more);
    var drain := Handled(full);
    var last := Run(full, drain);
    RunConcat(first, more, drain);
    RunConcat(Apply(u, CallAvailable), [MainStep], more + drain);
    es := [MainStep] + (more + drain);
    CountConcat(more, drain);
    CountConcat([MainStep], more + drain);
    assert MainSteps([MainStep]) == 1 by { CountMain(); }
  }

  lemma CountMain()
    ensures MainSteps([MainStep]) == 1
  {
  }

  lemma Asked(u: Uart) returns (v: Uart)
    requires Inv(u) && u.main.Idle? && u.isr.Off? && 0 < u.rx.r <= u.rx.w
    ensures Usable(u) && Runs(Apply(u, CallAvailable), [MainStep]) && Run(Apply(u, CallAvailable), [MainStep]) == v
    ensures Usable(v) && v.rx == u.rx && v.main == AvailableSecond(true) && v.isr.Off? && v.enabled && Empty(v.tx)
  {
    hide Contents;
    var u1 := Apply(u, CallAvailable);
    v := Apply(u1, MainStep);
    assert Runs(v, []);
    RunFirst(u1, MainStep, []);
    assert [MainStep] + [] == [MainStep];
  }

  lemma {:induction false} Arrivals(u: Uart, k: nat) returns (es: seq<Event>)
    requires Usable(u)
    ensures Runs(u, es) && MainSteps(es) == 0
    ensures var v := Run(u, es); v == u.(fifo := v.fifo, arrived := v.arrived) && |v.fifo| == |u.fifo| + k
    decreases k
  {
    if k == 0 {
      es := [];
    } else {
      var u' := Apply(u, Arrive(0));
      var rest := Arrivals(u', k - 1);
      RunFirst(u, Arrive(0), rest);
      CountFirst(Arrive(0), rest);
      es := [Arrive(0)] + rest;
    }
  }

  lemma CountFirst(e: Event, es: seq<Event>)
    ensures MainSteps([e] + es) == (if e.MainStep? then 1 else 0) + MainSteps(es)
  {
    assert ([e] + es)[1..] == es;
  }

  lemma {:induction false} CountConcat(a: seq<Event>, b: seq<Event>)
    ensures MainSteps(a + b) == MainSteps(a) + MainSteps(b)
    decreases |a|
  {
    if a == [] {
      assert a + b == b;
    } else {
      assert (a + b)[1..] == a[1..] + b;
      CountConcat(a[1..], b);
    }
  }

  /** The write index has gone round, or will once `left` more bytes are stored. */
  predicate Rounding(q: Ring, left: nat) { q.w < q.r || (0 < q.r && left >= |q.buf| - q.w) }

  /** A receive interrupt from start to end. */
  lemma Handled(u: Uart) returns (es: seq<Event>)
    requires Usable(u) && u.isr.Off? && u.enabled && Empty(u.tx) && Rounding(u.rx, |u.fifo|)
    ensures Runs(u, es) && MainSteps(es) == 0
    ensures var v := Run(u, es); Usable(v) && v.main == u.main && v.isr.Off? && v.rx.w < v.rx.r
  {
    var u' := Apply(u, Interrupt(false, true));
    var rest := Drained(u');
    RunFirst(u, Interrupt(false, true), rest);
    CountFirst(Interrupt(false, true), rest);
    es := [Interrupt(false, true)] + rest;
  }

  lemma {:induction false} Drained(u: Uart) returns (es: seq<Event>)
    requires Usable(u) && u.isr.RxLoop? && Empty(u.tx) && Rounding(u.rx, |u.fifo|)
    ensures Runs(u, es) && MainSteps(es) == 0
    ensures var v := Run(u, es); Usable(v) && v.main == u.main && v.isr.Off? && v.rx.w < v.rx.r
    decreases |u.fifo|
  {
    hide Runs, Run, MainSteps;
    if u.fifo == [] || Full(u.rx) {
      es := LeavesHandler(u);
    } else {
      var u3 := StoresOne(u);
      var rest := Drained(u3);
      es := ThreeThen(u, rest);
    }
  }

  lemma LeavesHandler(u: Uart) returns (es: seq<Event>)
    requires Usable(u) && u.isr.RxLoop? && Empty(u.tx) && (u.fifo == [] || Full(u.rx)) && Rounding(u.rx, |u.fifo|)
    ensures Runs(u, es) && MainSteps(es) == 0
    ensures var v := Run(u, es); Usable(v) && v.main == u.main && v.isr.Off? && v.rx.w < v.rx.r
  {
    var u1 := Apply(u, IsrStep);
    var u2 := Apply(u1, IsrStep);
    assert Runs(u2, []);
    RunFirst(u1, IsrStep, []);
    RunFirst(u, IsrStep, [IsrStep] + []);
    CountFirst(IsrStep, []);
    CountFirst(IsrStep, [IsrStep] + []);
    es := [IsrStep] + ([IsrStep] + []);
    NextIs(u.rx, u.rx.w);
  }

  /** The handler can take three steps. */
  ghost predicate ThreeSteps(u: Uart) {
    && Usable(u) && Enabled(u, IsrStep)
    && Usable(Apply(u, IsrStep)) && Enabled(Apply(u, IsrStep), IsrStep)
    && Usable(Apply(Apply(u, IsrStep), IsrStep)) && Enabled(Apply(Apply(u, IsrStep), IsrStep), IsrStep)
  }

  lemma StoresOne(u: Uart) returns (v: Uart)
    requires Usable(u) && u.isr.RxLoop? && u.fifo != [] && !Full(u.rx) && Rounding(u.rx, |u.fifo|)
    ensures ThreeSteps(u) && v == Apply(Apply(Apply(u, IsrStep), IsrStep), IsrStep)
    ensures Usable(v) && v.isr.RxLoop? && v.tx == u.tx && v.main == u.main && v.fifo == u.fifo[1..]
    ensures Rounding(v.rx, |v.fifo|)
  {
    NextIs(u.rx, u.rx.w);
    v := Apply(Apply(Apply(u, IsrStep), IsrStep), IsrStep);
  }

  lemma ThreeThen(u: Uart, rest: seq<Event>) returns (es: seq<Event>)
    requires ThreeSteps(u) && Runs(Apply(Apply(Apply(u, IsrStep), IsrStep), IsrStep), rest)
    ensures Runs(u, es) && Run(u, es) == Run(Apply(Apply(Apply(u, IsrStep), IsrStep), IsrStep), rest)
    ensures MainSteps(es) == MainSteps(rest)
  {
    hide Runs, Run, Apply, Enabled, MainSteps;
    var u1 := Apply(u, IsrStep);
    var u2 := Apply(u1, IsrStep);
    RunFirst(u2, IsrStep, rest);
    RunFirst(u1, IsrStep, [IsrStep] + rest);
    RunFirst(u, IsrStep, [IsrStep] + ([IsrStep] + rest));
    CountFirst(IsrStep, rest);
    CountFirst(IsrStep, [IsrStep] + rest);
    CountFirst(IsrStep, [IsrStep] + ([IsrStep] + rest));
    es := [IsrStep] + ([IsrStep] + ([IsrStep] + rest));
  }

  /**
   `available()` reads the write index twice. Whatever interrupts fall in between, its answer is the number of
   bytes then queued, exactly when at the call the read index is 0 or the write index is already behind it;
   otherwise some interleaving makes it negative.
   */
  lemma AvailableExactly(txSize: nat, rxSize: nat, es: seq<Event>)
    requires txSize > 0 && rxSize > 0 && Runs(Begun(txSize, rxSize), es)
    requires var u := Run(Begun(txSize, rxSize), es); u.main.Idle? && u.isr.Off?
    ensures var u := Run(Begun(txSize, rxSize), es);
            (forall more: seq<Event> | Answers(u, more) ::
               var v := Run(Apply(u, CallAvailable), more); Answer(v) == |Contents(v.rx)|)
            <==> u.rx.r == 0 || u.rx.w < u.rx.r
  {
    hide Inv, Run, Runs, Apply, MainSteps, Contents;
    Reachable(txSize, rxSize, es);
    var u := Run(Begun(txSize, rxSize), es);
    if u.rx.r == 0 || u.rx.w < u.rx.r {
      forall more: seq<Event> | Answers(u, more)
        ensures var v := Run(Apply(u, CallAvailable), more); Answer(v) == |Contents(v.rx)|
      {
        AnswersRight(u, more);
      }
    } else {
      var more := WrapsAround(u);
    }
  }

  lemma AnswersRight(u: Uart, more: seq<Event>)
    requires Inv(u) && u.main.Idle? && u.isr.Off? && (u.rx.r == 0 || u.rx.w < u.rx.r) && Answers(u, more)
    ensures var v := Run(Apply(u, CallAvailable), more); Answer(v) == |Contents(v.rx)|
  {
    hide Run, Runs, MainSteps, TxOk, RxOk, IsrOk;
    StepKeeps(u, CallAvailable);
    StaysSettled(Apply(u, CallAvailable), more);
  }

  // ---- a run on which available() is negative ------------------------------------------------------------

  lemma {:induction false} RunConcat(u: Uart, a: seq<Event>, b: seq<Event>)
    requires Runs(u, a) && Runs(Run(u, a), b)
    ensures Runs(u, a + b) && Run(u, a + b) == Run(Run(u, a), b)
    decreases |a|
  {
    hide Apply, Enabled;
    if a == [] {
      assert a + b == b;
    } else {
      assert (a + b)[1..] == a[1..] + b;
      RunConcat(Apply(u, a[0]), a[1..], b);
    }
  }

  lemma RunFirst(u: Uart, e: Event, es: seq<Event>)
    requires Usable(u) && Enabled(u, e) && Runs(Apply(u, e), es)
    ensures Runs(u, [e] + es) && Run(u, [e] + es) == Run(Apply(u, e), es)
  {
    hide Apply, Enabled;
    assert ([e] + es)[1..] == es;
  }

  /** One received byte from interrupt to return, with nothing to transmit. */
  function ReceiveOne(b: byte): seq<Event> {
    [Arrive(b)] + ([Interrupt(false, true)] + ([IsrStep] + ([IsrStep] + ([IsrStep] + ([IsrStep] + ([IsrStep] + []))))))
  }

  lemma ReceivesOne(u: Uart, b: byte)
    requires Usable(u) && u.isr.Off? && u.enabled && u.fifo == [] && !Full(u.rx) && Empty(u.tx)
    ensures Runs(u, ReceiveOne(b))
    ensures var u' := Run(u, ReceiveOne(b));
            u' == u.(rx := Ring(u.rx.buf[u.rx.w := b], u.rx.r, Next(u.rx, u.rx.w)),
                     arrived := u.arrived + [b], fate := u.fate + [true], accepted := u.accepted + [b])
  {
    var u1 := Apply(u, Arrive(b));
    var u2 := Apply(u1, Interrupt(false, true));
    var u3 := Apply(u2, IsrStep);
    var u4 := Apply(u3, IsrStep);
    var u5 := Apply(u4, IsrStep);
    var u6 := Apply(u5, IsrStep);
    var u7 := Apply(u6, IsrStep);
    assert u3.fifo == [];
    assert Runs(u7, []);
    RunFirst(u6, IsrStep, []);
    RunFirst(u5, IsrStep, [IsrStep] + []);
    RunFirst(u4, IsrStep, [IsrStep] + ([IsrStep] + []));
    RunFirst(u3, IsrStep, [IsrStep] + ([IsrStep] + ([IsrStep] + [])));
    RunFirst(u2, IsrStep, [IsrStep] + ([IsrStep] + ([IsrStep] + ([IsrStep] + []))));
    RunFirst(u1, Interrupt(false, true), [IsrStep] + ([IsrStep] + ([IsrStep] + ([IsrStep] + ([IsrStep] + [])))));
    RunFirst(u, Arrive(b), [Interrupt(false, true)] + ([IsrStep] + ([IsrStep] + ([IsrStep] + ([IsrStep] + ([IsrStep] + []))))));
  }

  lemma ReadsOne(u: Uart)
    requires Usable(u) && u.isr.Off? && u.main.Idle? && !Empty(u.rx)
    ensures Runs(u, [CallRead] + ([MainStep] + ([MainStep] + ([MainStep] + []))))
    ensures Run(u, [CallRead] + ([MainStep] + ([MainStep] + ([MainStep] + [])))) ==
            u.(rx := u.rx.(r := Next(u.rx, u.rx.r)), taken := u.taken + [u.rx.buf[u.rx.r]])
  {
    var u1 := Apply(u, CallRead);
    var u2 := Apply(u1, MainStep);
    var u3 := Apply(u2, MainStep);
    var u4 := Apply(u3, MainStep);
    assert Runs(u4, []);
    RunFirst(u3, MainStep, []);
    RunFirst(u2, MainStep, [MainStep] + []);
    RunFirst(u1, MainStep, [MainStep] + ([MainStep] + []));
    RunFirst(u, CallRead, [MainStep] + ([MainStep] + ([MainStep] + [])));
  }

  lemma StartsAvailable(u: Uart)
    requires Usable(u) && u.isr.Off? && u.main.Idle?
    ensures Runs(u, [CallAvailable] + ([MainStep] + []))
    ensures Run(u, [CallAvailable] + ([MainStep] + [])) == u.(main := AvailableSecond(u.rx.w >= u.rx.r))
  {
    var u1 := Apply(u, CallAvailable);
    var u2 := Apply(u1, MainStep);
    assert Runs(u2, []);
    RunFirst(u1, MainStep, []);
    RunFirst(u, CallAvailable, [MainStep] + []);
  }

  /** With a two-byte buffer: receive, read, and receive again between the two reads of `available()`. */
  lemma AvailableGoesNegative() returns (es: seq<Event>)
    ensures Runs(Begun(2, 2), es)
    ensures var u := Run(Begun(2, 2), es); u.main.AvailableSecond? && u.isr.Off? && Answer(u) == -1
  {
    hide Runs, Run, Apply, Enabled, ReceiveOne, Contents;
    var u0 := Begun(2, 2);
    ReceivesOne(u0, 1);
    var u1 := Run(u0, ReceiveOne(1));
    ReadsOne(u1);
    var read := [CallRead] + ([MainStep] + ([MainStep] + ([MainStep] + [])));
    var u2 := Run(u1, read);
    StartsAvailable(u2);
    var ask := [CallAvailable] + ([MainStep] + []);
    var u3 := Run(u2, ask);
    ReceivesOne(u3, 2);
    RunConcat(u2, ask, ReceiveOne(2));
    RunConcat(u1, read, ask + ReceiveOne(2));
    RunConcat(u0, ReceiveOne(1), read + (ask + ReceiveOne(2)));
    es := ReceiveOne(1) + (read + (ask + ReceiveOne(2)));
  }
}
