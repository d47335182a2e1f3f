/**
 lwIP's packet buffers: a heap of pbufs with next pointers, 16-bit `tot_len` fields and reference
 counts, and the three operations the Ethernet library uses on it.
 */
module Pbufs {
  import opened EthernetTable

  datatype Pbuf = Pbuf(payload: seq<byte>, next: nat, totLen: nat, ref: nat)
  type Heap = map<nat, Pbuf>

  predicate Allocated(heap: Heap, ids: seq<nat>) {
    forall k | 0 <= k < |ids| :: ids[k] in heap
  }

  ghost function Segments(heap: Heap, ids: seq<nat>): (s: seq<seq<byte>>)
    requires Allocated(heap, ids)
  {
    seq(|ids|, k requires 0 <= k < |ids| => heap[ids[k]].payload)
  }

  function Head(ids: seq<nat>): nat { if ids == [] then NULL else ids[0] }

  /** The k-th pbuf of the list `ids`: allocated, linked to the next one, and different from the others. */
  ghost predicate LinkedAt(heap: Heap, ids: seq<nat>, k: nat)
    requires k < |ids|
  {
    && ids[k] != NULL && ids[k] in heap
    && heap[ids[k]].next == Head(ids[k + 1..])
    && ids[k] !in ids[k + 1..]
  }

  ghost predicate Linked(heap: Heap, ids: seq<nat>) {
    forall k: nat | k < |ids| :: LinkedAt(heap, ids, k)
  }

  lemma LinkedDistinct(heap: Heap, ids: seq<nat>)
    requires Linked(heap, ids)
    ensures forall j, k | 0 <= j < k < |ids| :: ids[j] != ids[k]
    ensures forall k | 0 <= k < |ids| :: ids[k] != NULL
  {
    forall k | 0 <= k < |ids| ensures ids[k] != NULL { assert LinkedAt(heap, ids, k); }
    forall j, k | 0 <= j < k < |ids|
      ensures ids[j] != ids[k]
    {
      assert LinkedAt(heap, ids, j);
      assert ids[k] == ids[j + 1..][k - j - 1];
    }
  }

  /** A queue as the library keeps it: one reference per pbuf, `tot_len` counting to the end of the chain. */
  ghost predicate Chain(heap: Heap, ids: seq<nat>) {
    && Linked(heap, ids) && Allocated(heap, ids)
    && (forall k: nat | k < |ids| :: heap[ids[k]].ref == 1)
    && (forall k: nat | k < |ids| :: CountsAt(heap, ids, k))
  }

  ghost predicate CountsAt(heap: Heap, ids: seq<nat>, k: nat)
    requires k < |ids| && Allocated(heap, ids)
  {
    assert forall j | 0 <= j < |ids[k..]| :: ids[k..][j] == ids[k + j];
    heap[ids[k]].totLen == TotLen(Segments(heap, ids[k..]))
  }

  /** The heap after `pbuf_free` on a list whose first `m` pbufs have one reference and whose next has more. */
  ghost function Released(heap: Heap, ids: seq<nat>, m: nat): Heap
    requires m <= |ids| && Allocated(heap, ids) && (m < |ids| ==> heap[ids[m]].ref > 0)
  {
    var kept := heap - (set k | 0 <= k < m :: ids[k]);
    if m == |ids| then kept else kept[ids[m] := heap[ids[m]].(ref := heap[ids[m]].ref - 1)]
  }

  lemma ChainFreeable(heap: Heap, ids: seq<nat>)
    requires Chain(heap, ids)
    ensures Linked(heap, ids) && Allocated(heap, ids) && forall k: nat | k < |ids| :: heap[ids[k]].ref == 1
  {
  }

  lemma ReleaseNone(heap: Heap)
    ensures Released(heap, [], 0) == heap
  {
  }

  lemma NullHead(heap: Heap, ids: seq<nat>)
    requires Linked(heap, ids)
    ensures Head(ids) == NULL <==> ids == []
  {
    if ids != [] { assert LinkedAt(heap, ids, 0); }
  }

  method PbufFree(heap: Heap, p: nat, ghost ids: seq<nat>, ghost m: nat) returns (r: Heap)
    requires Linked(heap, ids) && Allocated(heap, ids) && p == Head(ids) && m <= |ids|
    requires forall k: nat | k < m :: heap[ids[k]].ref == 1
    requires m < |ids| ==> heap[ids[m]].ref > 1
    ensures r == Released(heap, ids, m)
  {
    r := heap;
    var q := p;
    ghost var n := 0;
    LinkedDistinct(heap, ids);
    while q != NULL
      invariant n <= |ids| && n <= m + 1
      invariant n <= m ==> q == Head(ids[n..]) && r == heap - (set k | 0 <= k < n :: ids[k])
      invariant n == m + 1 ==> q == NULL && r == Released(heap, ids, m)
      decreases |ids| - n
    {
      assert LinkedAt(heap, ids, n);
      var ref := r[q].ref - 1;
      r := r[q := r[q].(ref := ref)];
      if ref == 0 {
        var next := r[q].next;
        r := r - {q};
        q := next;
      } else {
        q := NULL;
      }
      n := n + 1;
    }
  }

  method PbufCat(heap: Heap, h: nat, t: nat, ghost a: seq<nat>) returns (r: Heap)
    requires Linked(heap, a) && Allocated(heap, a) && a != [] && h == Head(a)
    requires t in heap && t !in a
    ensures Joined(heap, r, a, t)
  {
    hide Joined, Raise, Linked;
    r := heap;
    var p := h;
    ghost var n := 0;
    RaiseNone(heap, a, heap[t].totLen);
    RaiseStep(heap, a, 0, t);
    while r[p].next != NULL
      invariant n < |a| && p == a[n] && r == Raise(heap, a, n, heap[t].totLen)
      decreases |a| - n
    {
      RaiseStep(heap, a, n, t);
      r := r[p := r[p].(totLen := (r[p].totLen + r[t].totLen) % U16)];
      p := r[p].next;
      n := n + 1;
    }
    RaiseStep(heap, a, n, t);
    RaisedAll(heap, a, t);
    r := r[p := r[p].(totLen := (r[p].totLen + r[t].totLen) % U16)];
    r := r[p := r[p].(next := t)];
  }

  /** A chain does not see changes elsewhere in the heap. */
  lemma ChainFrame(heap: Heap, heap': Heap, ids: seq<nat>)
    requires Chain(heap, ids)
    requires forall k | 0 <= k < |ids| :: ids[k] in heap' && heap'[ids[k]] == heap[ids[k]]
    ensures Chain(heap', ids) && Segments(heap', ids) == Segments(heap, ids)
  {
    forall k: nat | k < |ids|
      ensures LinkedAt(heap', ids, k)
    {
      assert LinkedAt(heap, ids, k);
    }
    forall k: nat | k < |ids|
      ensures CountsAt(heap', ids, k)
    {
      assert CountsAt(heap, ids, k);
      assert Segments(heap', ids[k..]) == Segments(heap, ids[k..]);
    }
  }

  lemma ChainTail(heap: Heap, ids: seq<nat>)
    requires Chain(heap, ids) && ids != []
    ensures Chain(heap, ids[1..])
    ensures Segments(heap, ids[1..]) == Segments(heap, ids)[1..]
    ensures ids[0] !in ids[1..] && heap[ids[0]].next == Head(ids[1..])
  {
    assert LinkedAt(heap, ids, 0);
    forall k: nat | k < |ids[1..]|
      ensures LinkedAt(heap, ids[1..], k) && CountsAt(heap, ids[1..], k)
    {
      assert LinkedAt(heap, ids, k + 1) && CountsAt(heap, ids, k + 1);
      assert ids[1..][k..] == ids[k + 1..] && ids[1..][k + 1..] == ids[k + 2..];
    }
  }

  lemma TotLenConcat(a: seq<seq<byte>>, b: seq<seq<byte>>)
    ensures TotLen(a + b) == (TotLen(a) + TotLen(b)) % U16
  {
    hide Flatten;
    FlattenConcat(a, b);
  }

  /** The heap after `pbuf_cat`: every total of list `a` grows by that of `t`, and its last pbuf links to `t`. */
  ghost predicate Joined(heap: Heap, heap': Heap, a: seq<nat>, t: nat)
    requires Allocated(heap, a) && t in heap
  {
    && heap'.Keys == heap.Keys
    && (forall id | id in heap && id !in a :: heap'[id] == heap[id])
    && (forall k: nat | k < |a| :: heap'[a[k]] == heap[a[k]].(
            totLen := (heap[a[k]].totLen + heap[t].totLen) % U16,
            next := if k + 1 == |a| then t else heap[a[k]].next))
  }

  /** Add `add` to the totals of the first `n` listed pbufs, one after the other. */
  ghost function Raise(heap: Heap, a: seq<nat>, n: nat, add: nat): (r: Heap)
    requires Allocated(heap, a) && n <= |a|
    ensures r.Keys == heap.Keys
  {
    if n == 0 then heap
    else
      var r := Raise(heap, a, n - 1, add);
      r[a[n - 1] := r[a[n - 1]].(totLen := (r[a[n - 1]].totLen + add) % U16)]
  }

  lemma {:induction false} RaiseEffect(heap: Heap, a: seq<nat>, n: nat, add: nat)
    requires Allocated(heap, a) && n <= |a| && forall j, k | 0 <= j < k < |a| :: a[j] != a[k]
    ensures forall id | id in heap && id !in a :: Raise(heap, a, n, add)[id] == heap[id]
    ensures forall k: nat | k < |a| :: Raise(heap, a, n, add)[a[k]] ==
              if k < n then heap[a[k]].(totLen := (heap[a[k]].totLen + add) % U16) else heap[a[k]]
  {
    if n > 0 { RaiseEffect(heap, a, n - 1, add); }
  }

  /** One turn of the loop in `pbuf_cat`, at a pbuf the loop has not reached before. */
  lemma RaiseNone(heap: Heap, a: seq<nat>, add: nat)
    requires Allocated(heap, a)
    ensures Raise(heap, a, 0, add) == heap
  {
  }

  lemma RaiseStep(heap: Heap, a: seq<nat>, n: nat, t: nat)
    requires Linked(heap, a) && Allocated(heap, a) && n < |a| && t in heap && t !in a
    ensures var r, add := Raise(heap, a, n, heap[t].totLen), heap[t].totLen;
            && r[a[n]] == heap[a[n]] && r[t] == heap[t]
            && Raise(heap, a, n + 1, add) == r[a[n] := r[a[n]].(totLen := (r[a[n]].totLen + r[t].totLen) % U16)]
            && heap[a[n]].next == (if n + 1 < |a| then a[n + 1] else NULL)
            && (n + 1 < |a| ==> a[n + 1] != NULL)
  {
    LinkedDistinct(heap, a);
    RaiseEffect(heap, a, n, heap[t].totLen);
    assert LinkedAt(heap, a, n);
  }

  lemma RaisedAll(heap: Heap, a: seq<nat>, t: nat)
    requires Linked(heap, a) && Allocated(heap, a) && a != [] && t in heap
    ensures var r := Raise(heap, a, |a|, heap[t].totLen); var last := a[|a| - 1];
            Joined(heap, r[last := r[last].(next := t)], a, t)
  {
    hide Linked, Raise;
    LinkedDistinct(heap, a);
    RaiseEffect(heap, a, |a|, heap[t].totLen);
  }

  lemma JoinedChain(heap: Heap, heap': Heap, a: seq<nat>, b: seq<nat>)
    requires Chain(heap, a) && Chain(heap, b) && a != [] && b != []
    requires forall k | 0 <= k < |b| :: b[k] !in a
    requires Joined(heap, heap', a, b[0])
    ensures Chain(heap', a + b)
    ensures Segments(heap', a + b) == Segments(heap, a) + Segments(heap, b)
  {
    var ids := a + b;
    forall k | 0 <= k < |ids| ensures ids[k] in heap' && heap'[ids[k]].payload == heap[ids[k]].payload && heap'[ids[k]].ref == 1 {
      if k >= |a| { assert ids[k] == b[k - |a|]; }
    }
    forall k: nat | k < |ids|
      ensures LinkedAt(heap', ids, k) && CountsAt(heap', ids, k)
    {
      if k < |a| {
        JoinedLink(heap, heap', a, b, k);
      } else {
        var j := k - |a|;
        assert ids[k..] == b[j..] && ids[k + 1..] == b[j + 1..];
        assert LinkedAt(heap, b, j) && CountsAt(heap, b, j);
        assert Segments(heap', ids[k..]) == Segments(heap, b[j..]);
      }
    }
  }

  lemma JoinedLink(heap: Heap, heap': Heap, a: seq<nat>, b: seq<nat>, k: nat)
    requires Chain(heap, a) && Chain(heap, b) && a != [] && b != [] && k < |a|
    requires forall j | 0 <= j < |b| :: b[j] !in a
    requires Joined(heap, heap', a, b[0]) && Allocated(heap', a + b)
    ensures LinkedAt(heap', a + b, k) && CountsAt(heap', a + b, k)
  {
    var ids := a + b;
    assert LinkedAt(heap, a, k) && CountsAt(heap, a, k) && CountsAt(heap, b, 0);
    assert ids[k..] == a[k..] + b && ids[k + 1..] == a[k + 1..] + b && b[0..] == b;
    assert Segments(heap', ids[k..]) == Segments(heap, a[k..]) + Segments(heap, b);
    TotLenConcat(Segments(heap, a[k..]), Segments(heap, b));
    assert ids[k] !in ids[k + 1..];
  }

  // ---- the queues of all slots ------------------------------------------------------------

  type Chains = s: seq<seq<nat>> | |s| == MAX_CLIENTS witness seq(MAX_CLIENTS, _ => [])

  /** Every queued pbuf is in exactly one chain, the one `home` names. */
  ghost predicate Homed(chains: Chains, home: map<nat, Index>) {
    && (forall i: Index :: HomedAt(chains[i], home, i))
    && (forall id | id in home :: id in chains[home[id]])
  }

  ghost predicate HomedAt(ids: seq<nat>, home: map<nat, Index>, i: Index) {
    forall id | id in ids :: id in home && home[id] == i
  }

  /**
   Conservation of memory: the allocated pbufs are those queued in the slots, each in exactly one place,
   together with the list `extra` that lwIP is handing over.
   */
  ghost predicate Accounted(heap: Heap, chains: Chains, home: map<nat, Index>, extra: seq<nat>) {
    && (forall i: Index :: Chain(heap, chains[i]))
    && Homed(chains, home)
    && Chain(heap, extra) && (forall id | id in extra :: id !in home)
    && heap.Keys == home.Keys + (set id | id in extra)
  }

  ghost function Rehome(home: map<nat, Index>, i: Index, ids: seq<nat>): (r: map<nat, Index>)
    ensures forall id :: id in r <==> (id in home && home[id] != i) || id in ids
    ensures forall id | id in r :: r[id] == if id in ids then i else home[id]
  {
    (map id | id in home && home[id] != i :: home[id]) + (map id | id in ids :: i)
  }

  lemma Rehomed(chains: Chains, home: map<nat, Index>, i: Index, ids: seq<nat>)
    requires Homed(chains, home) && forall id | id in ids :: id !in home || home[id] == i
    ensures Homed(chains[i := ids], Rehome(home, i, ids))
  {
    var home', chains' := Rehome(home, i, ids), chains[i := ids];
    forall j: Index
      ensures HomedAt(chains'[j], home', j)
    {
      assert HomedAt(chains[j], home, j);
    }
    forall id | id in home'
      ensures id in chains'[home'[id]]
    {
      if id !in ids { assert id in chains[home[id]]; }
    }
  }

  /** Replacing the queue of slot `i` when the other chains are untouched. */
  lemma Requeued(heap: Heap, heap': Heap, chains: Chains, home: map<nat, Index>, extra: seq<nat>,
                 i: Index, ids: seq<nat>, chains': Chains, extra': seq<nat>)
    requires chains' == chains[i := ids]
    requires Accounted(heap, chains, home, extra)
    requires Chain(heap', ids) && Chain(heap', extra')
    requires forall id | id in extra' :: id in extra && id !in ids
    requires forall id | id in ids :: id !in home || home[id] == i
    requires forall id | id in home && home[id] != i :: id in heap' && heap'[id] == heap[id]
    requires heap'.Keys == Rehome(home, i, ids).Keys + (set id | id in extra')
    ensures Accounted(heap', chains', Rehome(home, i, ids), extra')
    ensures forall j: Index | j != i :: Allocated(heap', chains[j]) && Segments(heap', chains[j]) == Segments(heap, chains[j])
  {
    Rehomed(chains, home, i, ids);
    hide CountsAt, LinkedAt, Linked, HomedAt, Homed, Segments;
    forall j: Index
      ensures Chain(heap', chains'[j])
      ensures j != i ==> Segments(heap', chains[j]) == Segments(heap, chains[j])
    {
      if j != i {
        OtherChain(heap, heap', chains, home, i, j);
      }
    }
  }

  lemma OtherChain(heap: Heap, heap': Heap, chains: Chains, home: map<nat, Index>, i: Index, j: Index)
    requires Chain(heap, chains[j]) && Homed(chains, home) && home.Keys <= heap.Keys && i != j
    requires forall id | id in home && home[id] != i :: id in heap' && heap'[id] == heap[id]
    ensures Chain(heap', chains[j]) && Segments(heap', chains[j]) == Segments(heap, chains[j])
  {
    assert HomedAt(chains[j], home, j);
    ChainFrame(heap, heap', chains[j]);
  }

  /** Releasing a whole queue leaves the rest of the heap accounted for. */
  lemma Emptied(heap: Heap, heap': Heap, chains: Chains, home: map<nat, Index>, extra: seq<nat>, i: Index, chains': Chains)
    requires Accounted(heap, chains, home, extra)
    requires heap' == Released(heap, chains[i], |chains[i]|) && chains' == chains[i := []]
    ensures Accounted(heap', chains', Rehome(home, i, []), extra)
    ensures forall j: Index | j != i :: Allocated(heap', chains[j]) && Segments(heap', chains[j]) == Segments(heap, chains[j])
  {
    ChainFrame(heap, heap', extra);
    Requeued(heap, heap', chains, home, extra, i, [], chains', extra);
  }

  /** Heap `heap'` differs from `heap` on the pbufs of `a` only, if at all. */
  ghost predicate SameBut(heap: Heap, heap': Heap, a: seq<nat>) {
    heap'.Keys == heap.Keys && forall id | id in heap && id !in a :: heap'[id] == heap[id]
  }

  lemma AppendedChain(heap: Heap, heap': Heap, a: seq<nat>, extra: seq<nat>)
    requires Chain(heap, a) && Chain(heap, extra) && extra != [] && forall k | 0 <= k < |extra| :: extra[k] !in a
    requires if a == [] then heap' == heap else Joined(heap, heap', a, extra[0])
    ensures SameBut(heap, heap', a) && Chain(heap', a + extra)
    ensures Segments(heap', a + extra) == Segments(heap, a) + Segments(heap, extra)
  {
    if a == [] {
      assert a + extra == extra;
    } else {
      JoinedChain(heap, heap', a, extra);
    }
  }

  /** The list `extra` has been queued behind slot `i`'s own pbufs. */
  lemma Appended(heap: Heap, heap': Heap, chains: Chains, home: map<nat, Index>, extra: seq<nat>, i: Index, chains': Chains)
    requires Accounted(heap, chains, home, extra) && extra != []
    requires if chains[i] == [] then heap' == heap else Joined(heap, heap', chains[i], extra[0])
    requires chains' == chains[i := chains[i] + extra]
    ensures Accounted(heap', chains', Rehome(home, i, chains[i] + extra), [])
    ensures Allocated(heap', chains[i] + extra)
    ensures Segments(heap', chains[i] + extra) == Segments(heap, chains[i]) + Segments(heap, extra)
    ensures forall j: Index | j != i :: Allocated(heap', chains[j]) && Segments(heap', chains[j]) == Segments(heap, chains[j])
  {
    hide Linked, CountsAt, Segments, Joined, Rehome;
    var a := chains[i];
    assert HomedAt(a, home, i);
    AppendedChain(heap, heap', a, extra);
    assert Chain(heap', []) by { EmptyChain(heap'); }
    Requeued(heap, heap', chains, home, extra, i, a + extra, chains', []);
  }

  lemma EmptyChain(heap: Heap)
    ensures Chain(heap, [])
  {
  }

  /** The first pbuf of slot `i` has been freed. */
  lemma Popped(heap: Heap, heap': Heap, chains: Chains, home: map<nat, Index>, i: Index, chains': Chains)
    requires Accounted(heap, chains, home, []) && chains[i] != []
    requires heap' == heap - {chains[i][0]} && chains' == chains[i := chains[i][1..]]
    ensures Accounted(heap', chains', Rehome(home, i, chains[i][1..]), [])
    ensures Allocated(heap', chains[i][1..])
    ensures Segments(heap', chains[i][1..]) == Segments(heap, chains[i])[1..]
    ensures forall j: Index | j != i :: Allocated(heap', chains[j]) && Segments(heap', chains[j]) == Segments(heap, chains[j])
  {
    hide Linked, CountsAt, Segments;
    var a, rest := chains[i], chains[i][1..];
    assert HomedAt(a, home, i);
    ChainTail(heap, a);
    ChainFrame(heap, heap', rest);
    EmptyChain(heap');
    Requeued(heap, heap', chains, home, [], i, rest, chains', []);
  }

  /** `pbuf_ref` on the second pbuf followed by `pbuf_free` on the first frees just the first. */
  lemma RefThenFree(heap: Heap, ids: seq<nat>)
    requires Chain(heap, ids) && |ids| > 1
    ensures ids[1] in heap && var reffed := heap[ids[1] := heap[ids[1]].(ref := 2)];
            && Linked(reffed, ids) && Allocated(reffed, ids)
            && reffed[ids[0]].ref == 1 && reffed[ids[1]].ref == 2
            && Released(reffed, ids, 1) == heap - {ids[0]}
  {
    LinkedDistinct(heap, ids);
    var reffed := heap[ids[1] := heap[ids[1]].(ref := 2)];
    forall k: nat | k < |ids| ensures LinkedAt(reffed, ids, k) { assert LinkedAt(heap, ids, k); }
    assert (set k | 0 <= k < 1 :: ids[k]) == {ids[0]};
  }

  lemma FreeOne(heap: Heap, ids: seq<nat>)
    requires Chain(heap, ids) && |ids| == 1
    ensures Released(heap, ids, 1) == heap - {ids[0]}
  {
    assert (set k | 0 <= k < 1 :: ids[k]) == {ids[0]};
  }
}
