/**
 The ownership invariant of the slot table: slots and attached pcbs point at each other one to one,
 and no callback is installed on a pcb that does not represent a slot. It is what makes `do_err`,
 which lwIP calls without a pcb, clear exactly the slot of the failed connection.
 */
module EthernetOwnership {
  import opened EthernetTable

  ghost predicate SlotOwned(net: Net, i: Index) {
    var s := net.clients[i];
    && (s.port == 0 <==> s.cpcb == NULL)
    && (s.cpcb == NULL ==> s.segments == [])
    && (s.cpcb != NULL ==>
          && s.cpcb in net.pcbs
          && var pcb := net.pcbs[s.cpcb]; pcb.arg == SlotArg(i) && pcb.recv && pcb.err)
    && QueueOk(s)
  }

  ghost predicate PcbOwned(net: Net, c: nat)
    requires c in net.pcbs
  {
    var pcb := net.pcbs[c];
    && (pcb.arg.SlotArg? ==> net.clients[pcb.arg.slot].cpcb == c)
    && (pcb.recv || pcb.err ==> pcb.arg.SlotArg?)
    && (pcb.poll ==> !pcb.recv && !pcb.err)
  }

  ghost predicate Owned(net: Net) {
    && NULL !in net.pcbs
    && (forall i: Index :: SlotOwned(net, i))
    && (forall c | c in net.pcbs :: PcbOwned(net, c))
  }

  /** A pcb as lwIP presents it to `do_accept`: the listening server's argument, no callbacks. */
  ghost predicate Fresh(net: Net, c: nat) {
    c in net.pcbs && var pcb := net.pcbs[c]; pcb.arg == ServerArg && !pcb.recv && !pcb.err && !pcb.poll
  }

  /** `do_accept` keeps ownership exactly when the peer's port is not 0, the mark of a free slot. */
  lemma AcceptOwned(net: Net, c: nat)
    requires Owned(net) && Fresh(net, c)
    ensures FirstFree(net.clients, 0).None? ==> DoAccept(net, c) == net
    ensures FirstFree(net.clients, 0).Some? ==> (Owned(DoAccept(net, c)) <==> net.pcbs[c].remotePort != 0)
  {
    var free := FirstFree(net.clients, 0);
    if free.Some? {
      var i := free.value;
      var net' := DoAccept(net, c);
      assert net'.clients[i].cpcb == c;
      if net.pcbs[c].remotePort == 0 {
        assert !SlotOwned(net', i);
      } else {
        forall j: Index
          ensures SlotOwned(net', j)
        {
          assert SlotOwned(net, j);
        }
        forall d | d in net'.pcbs
          ensures PcbOwned(net', d)
        {
          assert PcbOwned(net, d) && SlotOwned(net, i);
        }
      }
    }
  }

  /** `do_recv` never refuses data, and keeps ownership exactly when every pbuf carries some. */
  lemma RecvOwned(net: Net, c: nat, data: seq<seq<byte>>)
    requires Owned(net) && c in net.pcbs && net.pcbs[c].recv && data != []
    ensures Represents(net, net.pcbs[c].arg, c)
    ensures Owned(DoRecv(net, net.pcbs[c].arg, c, data)) <==> NonEmpty(data)
  {
    assert PcbOwned(net, c);
    var i := net.pcbs[c].arg.slot;
    var net' := DoRecv(net, net.pcbs[c].arg, c, data);
    if NonEmpty(data) {
      RecvKeeps(net, c, data, i);
    } else {
      var k :| 0 <= k < |data| && data[k] == [];
      assert net'.clients[i].segments[|net.clients[i].segments| + k] == [];
      assert !SlotOwned(net', i);
    }
  }

  lemma RecvKeeps(net: Net, c: nat, data: seq<seq<byte>>, i: Index)
    requires Owned(net) && c in net.pcbs && net.pcbs[c].arg == SlotArg(i) && data != [] && NonEmpty(data)
    ensures Owned(DoRecv(net, SlotArg(i), c, data))
  {
    assert PcbOwned(net, c);
    var net' := DoRecv(net, SlotArg(i), c, data);
    forall j: Index
      ensures SlotOwned(net', j)
    {
      assert SlotOwned(net, j);
      if j == i { AppendUnread(net.clients[i], data); }
    }
    forall d | d in net'.pcbs
      ensures PcbOwned(net', d)
    {
      assert PcbOwned(net, d);
    }
  }

  lemma CloseOwned(net: Net, c: nat, r: CloseResult)
    requires Owned(net) && c in net.pcbs
    ensures Owned(DoClose(net, net.pcbs[c].arg, c, r))
  {
    var net' := DoClose(net, net.pcbs[c].arg, c, r);
    assert PcbOwned(net, c);
    forall j: Index
      ensures SlotOwned(net', j)
    {
      assert SlotOwned(net, j);
    }
    forall d | d in net'.pcbs
      ensures PcbOwned(net', d)
    {
      assert PcbOwned(net, d);
    }
  }

  /**
   A fatal error on `c`: lwIP frees the pcb and `do_err` sees the callback argument only. The slot
   it clears is the one that represented `c`, and it clears it whenever there is one.
   */
  lemma ErrOwned(net: Net, c: nat)
    requires Owned(net) && c in net.pcbs
    ensures var freed := net.(pcbs := net.pcbs - {c});
            var net' := if net.pcbs[c].err then DoErr(freed, net.pcbs[c].arg) else freed;
            && Owned(net')
            && forall i: Index ::
                 net'.clients[i] == if net.clients[i].cpcb == c then CloseSlot(net.clients[i]) else net.clients[i]
  {
    var freed := net.(pcbs := net.pcbs - {c});
    var net' := if net.pcbs[c].err then DoErr(freed, net.pcbs[c].arg) else freed;
    assert PcbOwned(net, c);
    forall j: Index
      ensures SlotOwned(net', j)
      ensures net'.clients[j] == if net.clients[j].cpcb == c then CloseSlot(net.clients[j]) else net.clients[j]
    {
      assert SlotOwned(net, j);
    }
    forall d | d in net'.pcbs
      ensures PcbOwned(net', d)
    {
      assert PcbOwned(net, d);
    }
  }

  lemma StopOwned(net: Net, h: Handle, r: CloseResult)
    requires Owned(net)
    ensures Owned(Stop(net, h, r))
  {
    if Acts(net, h) {
      var net' := Stop(net, h, r);
      assert SlotOwned(net, h.cs.slot);
      forall j: Index
        ensures SlotOwned(net', j)
      {
        assert SlotOwned(net, j);
      }
      forall d | d in net'.pcbs
        ensures PcbOwned(net', d)
      {
        assert PcbOwned(net, d);
      }
    }
  }

  /** Reading takes a byte of the first pbuf: never outside its payload. */
  lemma ReadOwned(net: Net, h: Handle)
    requires Owned(net)
    ensures Owned(ReadLocked(net, h)) && Peek(net, h) != Wild
  {
    if Available(net, h) != 0 {
      var net' := ReadLocked(net, h);
      AdvanceUnread(net.clients[h.cs.slot]) by { assert SlotOwned(net, h.cs.slot); }
      forall j: Index
        ensures SlotOwned(net', j)
      {
        assert SlotOwned(net, j);
      }
      forall d | d in net'.pcbs
        ensures PcbOwned(net', d)
      {
        assert PcbOwned(net, d);
      }
    }
  }

  lemma ClaimOwned(net: Net, i: Index)
    requires Owned(net)
    ensures Owned(Claim(net, i))
  {
    forall j: Index
      ensures SlotOwned(Claim(net, i), j)
    {
      assert SlotOwned(net, j);
    }
    forall d | d in net.pcbs
      ensures PcbOwned(Claim(net, i), d)
    {
      assert PcbOwned(net, d);
    }
  }

  /** A change confined to pcb `c` that leaves its callbacks alone, or frees it detached. */
  lemma PcbStepOwned(net: Net, c: nat, pcbs: map<nat, Pcb>)
    requires Owned(net) && c in net.pcbs
    requires pcbs - {c} == net.pcbs - {c}
    requires c !in pcbs ==> !net.pcbs[c].err
    requires c in pcbs ==> var p, q := net.pcbs[c], pcbs[c];
               q.arg == p.arg && q.recv == p.recv && q.err == p.err && (q.poll ==> p.poll)
    ensures Owned(net.(pcbs := pcbs))
  {
    var net' := net.(pcbs := pcbs);
    forall d | d != c
      ensures d in net.pcbs <==> d in pcbs
      ensures d in pcbs ==> pcbs[d] == net.pcbs[d]
    {
      assert d in net.pcbs <==> d in net.pcbs - {c};
      assert d in pcbs <==> d in pcbs - {c};
      if d in pcbs { assert (pcbs - {c})[d] == (net.pcbs - {c})[d]; }
    }
    forall j: Index
      ensures SlotOwned(net', j)
    {
      assert SlotOwned(net, j);
    }
    forall d | d in pcbs
      ensures PcbOwned(net', d)
    {
      assert PcbOwned(net, d);
    }
  }

  /** The test of `accept()` on a slot. */
  lemma LiveIs(net: Net, i: Index)
    requires Owned(net)
    ensures Live(net, i) <==> Established(net, i)
  {
    assert SlotOwned(net, i);
  }

  /** The test of `available()` on a slot: an established connection with unread bytes. */
  lemma PendingIs(net: Net, i: Index)
    requires Owned(net) && Short(net.clients[i])
    ensures Pending(net, i) <==> Established(net, i) && Unread(net.clients[i]) != []
  {
    LiveIs(net, i);
    assert SlotOwned(net, i);
    var s := net.clients[i];
    if s.segments != [] {
      assert |Flatten(s.segments)| == |s.segments[0]| + |Flatten(s.segments[1..])|;
    }
  }
}
