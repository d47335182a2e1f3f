/** `HardwareSerial` as an object: its methods, run without interruption, are operations on two queues. */
module HardwareSerial {
  import opened SerialRing

  class Serial {
    var txBuffer: array<byte>
    var txReadIndex: nat
    var txWriteIndex: nat
    var rxBuffer: array<byte>
    var rxReadIndex: nat
    var rxWriteIndex: nat
    var sent: seq<byte>      // what the UART has been given to transmit
    var fifo: seq<byte>      // what the UART has received and not yet handed over

    ghost function Tx(): Ring
      reads this, txBuffer
    {
      Ring(txBuffer[..], txReadIndex, txWriteIndex)
    }

    ghost function Rx(): Ring
      reads this, rxBuffer
    {
      Ring(rxBuffer[..], rxReadIndex, rxWriteIndex)
    }

    ghost predicate Valid()
      reads this, txBuffer, rxBuffer
    {
      Ok(Tx()) && Ok(Rx()) && txBuffer != rxBuffer
    }

    ghost function TxQueue(): seq<byte>
      requires Valid()
      reads this, txBuffer, rxBuffer
    {
      Contents(Tx())
    }

    ghost function RxQueue(): seq<byte>
      requires Valid()
      reads this, txBuffer, rxBuffer
    {
      Contents(Rx())
    }

    method Available() returns (n: int)
      requires Valid()
      ensures n == |RxQueue()|
    {
      n := if rxWriteIndex >= rxReadIndex then rxWriteIndex - rxReadIndex
           else rxBuffer.Length - (rxReadIndex - rxWriteIndex);
    }

    method Peek() returns (c: int)
      requires Valid()
      ensures c == if RxQueue() == [] then -1 else RxQueue()[0]
    {
      hide Contents;
      EmptyFull(Rx());
      if rxReadIndex == rxWriteIndex {
        return -1;
      }
      Consume(Rx());
      return rxBuffer[rxReadIndex];
    }

    method Read() returns (c: int)
      requires Valid()
      modifies this`rxReadIndex
      ensures Valid() && TxQueue() == old(TxQueue())
      ensures if old(RxQueue()) == [] then c == -1 && RxQueue() == []
              else c == old(RxQueue())[0] && RxQueue() == old(RxQueue())[1..]
    {
      hide Contents;
      EmptyFull(Rx());
      if rxReadIndex == rxWriteIndex {
        return -1;
      }
      Consume(Rx());
      c := rxBuffer[rxReadIndex];
      rxReadIndex := (rxReadIndex + 1) % rxBuffer.Length;
    }

    /** Hands the whole transmit queue to the UART, waiting for space whenever there is none. */
    method PrimeTransmit()
      requires Valid()
      modifies this`txReadIndex, this`sent
      ensures Valid() && RxQueue() == old(RxQueue())
      ensures TxQueue() == [] && sent == old(sent) + old(TxQueue())
    {
      hide Contents;
      EmptyFull(Tx());
      while txReadIndex != txWriteIndex
        invariant Valid() && RxQueue() == old(RxQueue())
        invariant sent + TxQueue() == old(sent) + old(TxQueue())
        decreases |TxQueue()|
      {
        ghost var queue, before := TxQueue(), sent;
        Consume(Tx());
        sent := sent + [txBuffer[txReadIndex]];
        txReadIndex := (txReadIndex + 1) % txBuffer.Length;
        assert (before + [queue[0]]) + queue[1..] == before + queue;
      }
      EmptyFull(Tx());
    }

    /**
     Waits while the ring is full, which only the interrupt handler changes by emptying it; then queues the byte
     and hands everything over. A ring of one byte is full for ever (`SerialRing.OneByteRing`).
     */
    method Write(c: byte)
      requires Valid() && txBuffer.Length >= 2
      modifies this`txReadIndex, this`txWriteIndex, this`sent, txBuffer
      ensures Valid() && RxQueue() == old(RxQueue())
      ensures TxQueue() == [] && sent == old(sent) + old(TxQueue()) + [c]
    {
      hide Contents;
      EmptyFull(Tx());
      while (txWriteIndex + 1) % txBuffer.Length == txReadIndex
        invariant Valid() && RxQueue() == old(RxQueue()) && txBuffer[..] == old(txBuffer[..])
        invariant sent + TxQueue() == old(sent) + old(TxQueue())
        decreases |TxQueue()|
      {
        EmptyFull(Tx());
        PrimeTransmit();    // the interrupt handler
      }
      EmptyFull(Tx());
      Enqueue(c);
      PrimeTransmit();
    }

    method Enqueue(c: byte)
      requires Valid() && |TxQueue()| < txBuffer.Length - 1
      modifies this`txWriteIndex, txBuffer
      ensures Valid() && RxQueue() == old(RxQueue()) && TxQueue() == old(TxQueue()) + [c]
    {
      hide Contents;
      EmptyFull(Tx());
      StoreKeeps(Tx(), c);
      ghost var stored := Ring(txBuffer[..][txWriteIndex := c], txReadIndex, txWriteIndex);
      txBuffer[txWriteIndex] := c;
      assert Tx() == stored;
      Publish(stored);
      txWriteIndex := (txWriteIndex + 1) % txBuffer.Length;
    }

    /** The receive half of `UARTIntHandler`: fetch until the FIFO is empty or one byte finds the ring full. */
    method Receive() returns (lost: bool)
      requires Valid()
      modifies this`rxWriteIndex, this`fifo, rxBuffer
      ensures Valid() && TxQueue() == old(TxQueue())
      ensures !lost ==> fifo == [] && RxQueue() == old(RxQueue()) + old(fifo)
      ensures lost ==> |RxQueue()| == rxBuffer.Length - 1 && exists b: byte :: RxQueue() + [b] + fifo == old(RxQueue()) + old(fifo)
    {
      hide Contents;
      while fifo != []
        invariant Valid() && TxQueue() == old(TxQueue())
        invariant RxQueue() + fifo == old(RxQueue()) + old(fifo)
        decreases |fifo|
      {
        ghost var queue, was := RxQueue(), fifo;
        var lChar := fifo[0];
        fifo := fifo[1..];
        assert queue + [lChar] + fifo == queue + was;
        EmptyFull(Rx());
        if (rxWriteIndex + 1) % rxBuffer.Length == rxReadIndex {
          return true;
        }
        StoreKeeps(Rx(), lChar);
        ghost var stored := Ring(rxBuffer[..][rxWriteIndex := lChar], rxReadIndex, rxWriteIndex);
        rxBuffer[rxWriteIndex] := lChar;
        assert Rx() == stored;
        Publish(stored);
        rxWriteIndex := (rxWriteIndex + 1) % rxBuffer.Length;
      }
      return false;
    }
  }
}
