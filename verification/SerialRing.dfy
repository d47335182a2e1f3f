/** The index arithmetic of the UART ring buffers, seen as a queue that holds at most size - 1 bytes. */
module SerialRing {

  type byte = b: int | 0 <= b < 256

  /** `r` and `w` are the read and write index. */
  datatype Ring = Ring(buf: seq<byte>, r: nat, w: nat)

  predicate Ok(q: Ring) {
    q.r < |q.buf| && q.w < |q.buf|
  }

  predicate Empty(q: Ring) { q.r == q.w }

  predicate Full(q: Ring)
    requires Ok(q)
  {
    (q.w + 1) % |q.buf| == q.r
  }

  /** `available()`, as one expression. */
  function Length(q: Ring): nat
    requires Ok(q)
  {
    if q.w >= q.r then q.w - q.r else |q.buf| - (q.r - q.w)
  }

  function Slot(q: Ring, k: nat): nat
    requires Ok(q) && k < |q.buf|
  {
    if q.r + k < |q.buf| then q.r + k else q.r + k - |q.buf|
  }

  ghost function Contents(q: Ring): (s: seq<byte>)
    requires Ok(q)
    ensures |s| == Length(q)
  {
    seq(Length(q), k requires 0 <= k < Length(q) => q.buf[Slot(q, k)])
  }

  lemma EmptyFull(q: Ring)
    requires Ok(q)
    ensures Empty(q) <==> Contents(q) == []
    ensures Full(q) <==> |Contents(q)| == |q.buf| - 1
  {
    if q.w + 1 == |q.buf| { assert (q.w + 1) % |q.buf| == 0; }
  }

  /** Only a ring of one byte is full while it is empty. */
  lemma OneByteRing(q: Ring)
    requires Ok(q) && Empty(q)
    ensures Full(q) <==> |q.buf| == 1
  {
  }

  /** Storing at the write index does not touch the queue. */
  lemma StoreKeeps(q: Ring, b: byte)
    requires Ok(q)
    ensures Ok(q.(buf := q.buf[q.w := b])) && Contents(q.(buf := q.buf[q.w := b])) == Contents(q)
  {
    var q' := q.(buf := q.buf[q.w := b]);
    forall k | 0 <= k < Length(q)
      ensures Contents(q')[k] == Contents(q)[k]
    {
      assert Slot(q, k) != q.w;
    }
  }

  function Next(q: Ring, i: nat): nat
    requires i < |q.buf|
  {
    (i + 1) % |q.buf|
  }

  lemma NextIs(q: Ring, i: nat)
    requires i < |q.buf|
    ensures Next(q, i) == if i + 1 < |q.buf| then i + 1 else 0
  {
  }

  /** Advancing the write index publishes the byte stored there. */
  lemma Publish(q: Ring)
    requires Ok(q) && !Full(q)
    ensures Ok(q.(w := Next(q, q.w))) && Contents(q.(w := Next(q, q.w))) == Contents(q) + [q.buf[q.w]]
  {
    NextIs(q, q.w);
    var q' := q.(w := Next(q, q.w));
    assert Slot(q', Length(q)) == q.w;
    forall k | 0 <= k < Length(q') ensures Contents(q')[k] == (Contents(q) + [q.buf[q.w]])[k] {
    }
  }

  /** Advancing the read index removes the oldest byte. */
  lemma Consume(q: Ring)
    requires Ok(q) && !Empty(q)
    ensures Contents(q) != [] && Contents(q)[0] == q.buf[q.r]
    ensures Ok(q.(r := Next(q, q.r))) && Contents(q.(r := Next(q, q.r))) == Contents(q)[1..]
  {
    NextIs(q, q.r);
    var q' := q.(r := Next(q, q.r));
    forall k | 0 <= k < Length(q') ensures Contents(q')[k] == Contents(q)[1..][k] {
      assert Slot(q', k) == Slot(q, k + 1);
    }
  }
}
