# Verified model of the LOGO! 8 Arduino core

A Dafny model of the parts of the Arduino core for Tiva C boards that are hardest to get right by reading:
the Ethernet server's table of recycled connection slots, the streaming text search, the in-place string
replacement, the interrupt-shared serial rings, the SysTick clock, and the arithmetic of the drawing,
random number, CAN bit rate and number printing routines.

`dafny verify dfyconfig.toml` checks the whole project.

## How it is organised

- `EthernetTable.dfy` is the slot table as a value: what each lwIP callback, each server call and each
  `EthernetClient` call does to it. `EthernetOwnership.dfy` is the invariant tying slots to pcbs.
  `EthernetRuns.dfy` interleaves all of these in any order and adds the history: which connection each slot,
  pcb and handle belongs to, and the bytes delivered, taken and returned for it. `EthernetTheorems.dfy` and
  `EthernetFairness.dfy` hold the results about whole runs.
- `Pbufs.dfy` is lwIP's pbuf heap with reference counts. `EthernetServer.dfy` is the server and the client
  as objects over that heap; each method is proved to act as the function of `EthernetTable` it stands for,
  to follow valid pointers only, and to leave allocated exactly the pbufs still queued. `EthernetDriver.dfy`
  carries out every event of a run on these objects, arriving chains included.
- `StreamFind.dfy` is `Stream::findMulti` against "first occurrence".
- `ReplaceText.dfy` is the theory of leftmost, rightmost and expanding replacement; `StringReplace.dfy` is
  `String::replace` on a NUL-terminated buffer. `ReplacePieces.dfy` says what the replacements are by cutting
  the text and joining the pieces.
- `SerialRing.dfy` is the ring of `HardwareSerial`, `HardwareSerial.dfy` its methods run to completion, and
  `SerialInterleaving.dfy` the same code cut at every shared access, with the interrupt handler in between.
- `SysTickTime.dfy`, `Waiting.dfy` and `Wiring.dfy` are `micros`, `delayMicroseconds` and `delay` over a true
  tick count: the arithmetic of the counter, what the waits do with a polling pattern, and the code.
- `Raster.dfy`, `Random.dfy`, `CanBitRate.dfy`, `Numbers.dfy` and `NumberParsing.dfy` are the arithmetic.
  `Arithmetic.dfy` holds the facts about products they share.

## What does not hold as one would expect

Each of these is proved, with the exact condition where there is one.

- Generation stamps are 16 bits and skip zero, so they come round after 65535 accepts: a handle kept that
  long acts on another connection (`EthernetTheorems.StampsComeRound`).
- `do_close` drops what was received but not yet read: a byte that arrives and is not read before the FIN is
  lost (`EthernetTheorems.FinLosesByte`), and a connection has been read completely exactly when its queue was
  empty at the step that ended it (`EthernetTheorems.LostExactly`).
- `available()` is off once 65536 bytes are queued (`EthernetTable.AvailableIsUnread`), because lwIP's
  `tot_len` has 16 bits; with exactly that many it says there are none (`EthernetTheorems.QueueWraps`).
- A connection from remote port 0, which lwIP does not reject, takes a slot that still counts as free: the next
  one takes the same slot, and a reset of the first closes the second (`EthernetTheorems.PortZeroCrosses`).
  Ownership survives an accept exactly when the port is not 0 (`EthernetOwnership.AcceptOwned`).
- lwIP's `tcp_receive` empties the leading pbufs of a segment that overlaps data already received
  (libraries/Ethernet/utility/tcp_in.c, lines 1195-1204) and delivers the chain with them. Such a pbuf is read
  outside its payload (`EthernetTheorems.EmptyPbufRead`); reading stays inside every payload exactly when no
  delivered pbuf is empty (`EthernetTable.EmptyPayloadExactly`).
- Expanding `replace` feeds its own output back into the search when an end of the searched text begins the
  replacement; it then makes more replacements than it made room for (`ReplaceText.FeedWitness`) and writes
  past its buffer unless there happens to be room (`StringReplace.String.Replace`).
- `HardwareSerial::available()` reads the write index twice. It is right under every interleaving exactly when
  the read index is 0 or ahead of the write index at the call, and can be negative otherwise
  (`SerialInterleaving.AvailableExactly`). A ring of one byte is always full (`SerialRing.OneByteRing`).
- `delay(ms)` doubles its argument in 32 bits: from 2^31 ms on it can return early, and at 2^31 ms it returns
  at once (`Waiting.DelayExactly`, `Waiting.ReturnsAtOnce`).
- `line` never ends when the larger major coordinate is 32767, and draws beside the line when the endpoints are
  more than 32767 apart; it is right exactly otherwise (`Raster.WalkExactly`).
- `CANBitRateSet` is documented not to exceed the requested rate. The value it returns does not. The rate on
  the bus does exactly when the pre-divider overflows its field, which first happens at 4124 clocks a bit,
  or by less than a hertz of rounding (`CanBitRate.BusFasterExactly`, `CanBitRate.PrescalerOverflows`).
- `printNumber` writes its digits as a C string, so a digit 201, whose character is a NUL, ends the output
  (`NumberPrinting.WholeExactly`).
- `do_random` is a multiplicative generator on 1 to 2^31 - 2 and treats the state 0 apart. Two 32-bit seeds
  other than 0 still lead to it, and the generator then restarts at a fixed value (`Random.ZeroExactly`,
  `Random.AfterZero`).

## What is assumed

- Ethernet: lwIP calls the callbacks one at a time and frees the pcb of a failed connection before calling
  the error callback. `EthernetServer::available()` and `accept()`, `EthernetClient::available()`, `status()`
  and `connected()`, and the construction of a handle, which the code does not protect from interrupts, are
  single steps. The results on whole runs are for `AllClean` ones: no remote port is 0 and every pbuf carries
  data; the exceptions are above. Pbufs arrive with a reference count of 1; `connect()` and `flush()` are not
  called on a server's handles. How `tcp_close` ends is an input of each close. The TCP window does not limit
  what is delivered.
- Streams: input that ends before the timeout is a finite string, and a timeout its end.
- Strings: no embedded NULs, arguments that are not the string itself, forward copies where the code calls
  `memcpy` on overlapping ranges. Whether `realloc` succeeds is an input.
- Serial: buffer sizes do not change once reception has begun. Which byte arrives when, and when the
  transmitter has room, are inputs.
- Clock: F_CPU is a whole number of megahertz, at most 16777, so that a millisecond fits the 24-bit counter;
  the SysTick interrupt is serviced when the counter reloads. The ticks that pass
  between two reads are an input (`plan`); a loop that is still waiting when the plan ends reports so.
- Integer widths are those of the 32-bit target; `char` is unsigned.

## Model

| member | source | states |
|---|---|---|
| EthernetTheorems.HandleIsolation | libraries/Ethernet/EthernetClient.cpp:316-488 | in every run, a handle made fewer than 65535 accepts ago either acts on its own connection, reading, peeking, stopping and reporting that one alone, connected exactly while that has unread bytes or is ESTABLISHED; or, once that connection has left its slot, is inert: no bytes, CLOSED, not connected, and stopping changes nothing |
| EthernetTheorems.StopCloses | libraries/Ethernet/EthernetClient.cpp:412-457 | in every run, `stop()` on a current connection frees its slot and closes its pcb: gone, or moved on without argument and callbacks, or left with the poll callback that closes it again; no other slot or pcb changes |
| EthernetTheorems.FinCloses | libraries/Ethernet/EthernetServer.cpp:30-73 | in every run, a FIN on a current connection does the same |
| EthernetTheorems.ResetCloses | libraries/Ethernet/EthernetServer.cpp:111-125 | in every run, a fatal error frees the slot of the connection; its pcb is gone |
| EthernetTheorems.RetryCloses | libraries/Ethernet/EthernetServer.cpp:17-28 | a retried close frees the pcb, moves it on or leaves it to the next retry, and concerns no slot |
| EthernetTheorems.AcceptTakes | libraries/Ethernet/EthernetServer.cpp:127-174 | in every run, a new connection takes a slot without one, with nothing to read and unclaimed, and changes no other; without such a slot nothing changes |
| EthernetTheorems.CopyBehaves | libraries/Ethernet/EthernetClient.cpp:46-66 | in every run, a copied handle answers as the original, which is not affected |
| EthernetTheorems.StaleExactly | libraries/Ethernet/EthernetClient.h:62-64 | in every run a handle acts exactly when its slot's connection number agrees with its own modulo 65535, so up to that many accepts later `stale()` holds just when the slot has been taken by another connection |
| EthernetTheorems.StampsComeRound | libraries/Ethernet/EthernetServer.cpp:147-157 | there is a run of 65536 accepts after which the first handle is not stale and peeks a byte of the last connection |
| EthernetTheorems.Reachable | libraries/Ethernet/EthernetServer.cpp:30-174 | every run keeps the ownership, stamp and stream invariants |
| EthernetTheorems.CallbacksHitTheirSlot | libraries/Ethernet/EthernetServer.cpp:30-125 | in every run, data, FIN and RST of a pcb change the slot of its own connection, as they should, and no other slot |
| EthernetTheorems.StreamConservation | libraries/Ethernet/EthernetClient.cpp:316-357 | in every run, for each connection in its slot the bytes taken followed by the unread ones are the bytes delivered; afterwards the bytes taken followed by the discarded ones are |
| EthernetTheorems.LostExactly | libraries/Ethernet/EthernetServer.cpp:52-73 | in every run a connection leaves its slot through a FIN, an error or a `stop()` only, discards what was unread then, and has been read completely exactly when that was nothing |
| EthernetTheorems.FinLosesByte | libraries/Ethernet/EthernetServer.cpp:30-73 | a run in which a delivered byte is discarded by the FIN |
| EthernetTheorems.PortZeroCrosses | libraries/Ethernet/EthernetServer.cpp:127-157 | a run in which, after an accept from port 0, the reset of one connection closes the slot of another |
| EthernetTheorems.EmptyPbufRead | libraries/Ethernet/EthernetClient.cpp:381-399 | a run in which a chain with an empty leading pbuf makes `peek()` read outside the payload |
| EthernetTheorems.QueueWraps | libraries/Ethernet/EthernetClient.cpp:292-299 | a run with 65536 unread bytes of which `available()` reports none |
| EthernetTheorems.DeliveredInOrder | libraries/Ethernet/EthernetClient.cpp:316-375 | in every run whose reads go through recent handles, what the handles of a connection returned is a prefix of what was delivered to it |
| EthernetTheorems.HandedOnce | libraries/Ethernet/EthernetServer.cpp:227-240 | in every run `accept()` hands out each connection at most once, slots being recycled |
| EthernetTheorems.AcceptHandsOver | libraries/Ethernet/EthernetServer.cpp:227-240 | in every run `accept()` returns a false client only if every connection whose pcb is ESTABLISHED has been handed out, and otherwise a handle on one that had not been |
| EthernetFairness.AvailableFindsExactly | libraries/Ethernet/EthernetServer.cpp:184-225 | in every run, with fewer than 65536 bytes in each queue, `available()` returns a handle just when some ESTABLISHED connection has unread bytes; the handle is on such a one and counts its bytes; otherwise it is empty and the cursor stays |
| EthernetFairness.RoundRobinFair | libraries/Ethernet/EthernetServer.cpp:184-225 | after every run, a connection that stays ESTABLISHED with unread bytes is returned within 8 calls of `available()`, whatever happens to the others |
| EthernetFairness.ServedWithin | libraries/Ethernet/EthernetServer.cpp:184-225 | the number of calls needed is bounded by the distance from the cursor |
| EthernetOwnership.PendingIs | libraries/Ethernet/EthernetServer.cpp:210-220 | the test of `available()` on a slot is an ESTABLISHED pcb and unread bytes |
| EthernetOwnership.LiveIs | libraries/Ethernet/EthernetServer.cpp:227-240 | the test of `accept()` on a slot is an ESTABLISHED pcb |
| EthernetOwnership.AcceptOwned | libraries/Ethernet/EthernetServer.cpp:127-174 | accepting keeps the ownership invariant if and only if the remote port is not 0; with no free slot nothing changes |
| EthernetOwnership.RecvOwned | libraries/Ethernet/EthernetServer.cpp:79-103 | data for a pcb with a receive callback is never refused, and keeps the invariant if and only if no pbuf is empty |
| EthernetOwnership.CloseOwned | libraries/Ethernet/EthernetServer.cpp:30-73 | closing keeps the invariant, however `tcp_close` ends and however late the callback |
| EthernetOwnership.ErrOwned | libraries/Ethernet/EthernetServer.cpp:111-125 | the error callback, which is not told the pcb, clears exactly the slot of the pcb that failed |
| EthernetOwnership.StopOwned | libraries/Ethernet/EthernetClient.cpp:412-457 | `stop()` through any handle keeps the invariant |
| EthernetOwnership.ReadOwned | libraries/Ethernet/EthernetClient.cpp:316-399 | reading keeps the invariant and never reads outside a payload |
| EthernetOwnership.PcbStepOwned | libraries/Ethernet/EthernetServer.cpp:17-28 | a change of one pcb's state, or its release by a retried close, keeps the invariant |
| EthernetTable.AdvanceUnread | libraries/Ethernet/EthernetClient.cpp:316-357 | the byte read is the first unread one and the rest stays unread, across pbuf boundaries |
| EthernetTable.AppendUnread | libraries/Ethernet/EthernetServer.cpp:79-103 | queuing pbufs appends their bytes to the unread ones |
| EthernetTable.AvailableIsUnread | libraries/Ethernet/EthernetClient.cpp:292-299 | `available()` is the number of unread bytes if and only if fewer than 65536 are queued |
| EthernetTable.EmptyPayloadExactly | libraries/Ethernet/EthernetClient.cpp:316-399 | after a chain is delivered to an open slot, no sequence of reads and further data leaves a payload, if and only if no pbuf of the chain is empty |
| EthernetTable.FirstFree | libraries/Ethernet/EthernetServer.cpp:127-157 | the slot an accept takes is the first with port 0 |
| EthernetTable.FirstUnclaimed | libraries/Ethernet/EthernetServer.cpp:227-240 | the slot `accept()` claims is the first established one not claimed |
| EthernetRuns.NextStamp | libraries/Ethernet/EthernetServer.cpp:147-157 | the n-th accept is stamped (n - 1) mod 65535 + 1, never 0 |
| EthernetRuns.AcceptKeeps | libraries/Ethernet/EthernetServer.cpp:127-174 | an incoming connection keeps the run invariant |
| EthernetRuns.DeliverKeeps | libraries/Ethernet/EthernetServer.cpp:79-103 | incoming data keeps it |
| EthernetRuns.FinKeeps | libraries/Ethernet/EthernetServer.cpp:30-73 | a FIN keeps it |
| EthernetRuns.ResetKeeps | libraries/Ethernet/EthernetServer.cpp:111-125 | a reset keeps it |
| EthernetRuns.ReadKeeps | libraries/Ethernet/EthernetClient.cpp:316-357 | reading through any handle, stale ones included, keeps it |
| EthernetRuns.StopKeeps | libraries/Ethernet/EthernetClient.cpp:412-457 | stopping through any handle keeps it |
| EthernetRuns.AcceptCallKeeps | libraries/Ethernet/EthernetServer.cpp:227-240 | `accept()` keeps it |
| EthernetRuns.AvailableCallKeeps | libraries/Ethernet/EthernetServer.cpp:184-225 | `available()` keeps it |
| EthernetRuns.CopyKeeps | libraries/Ethernet/EthernetClient.cpp:46-66 | a copied handle belongs to the connection of the original |
| EthernetServer.Server.constructor | libraries/Ethernet/EthernetServer.cpp:9-15 | a new server has eight free slots, no pbufs, and satisfies the invariant |
| EthernetServer.Server.DoAccept | libraries/Ethernet/EthernetServer.cpp:127-174 | on the heap, acts as the table says and keeps the heap accounted for; the invariant survives exactly when there was no free slot or the port is not 0 |
| EthernetServer.Server.DoRecv | libraries/Ethernet/EthernetServer.cpp:79-103 | likewise; the pbufs handed over end up in the slot's queue, or are refused and stay lwIP's; the invariant survives exactly when none is empty |
| EthernetServer.Server.DoClose | libraries/Ethernet/EthernetServer.cpp:30-73 | likewise; the slot's queue is freed, once |
| EthernetServer.Server.TcpError | libraries/Ethernet/EthernetServer.cpp:111-125 | a failed pcb's slot, and no other, ends closed with its queue freed |
| EthernetServer.Server.NextPending | libraries/Ethernet/EthernetServer.cpp:184-225 | the scanning loop finds the slot the table says and moves the cursor to it |
| EthernetServer.Server.ClaimNext | libraries/Ethernet/EthernetServer.cpp:227-240 | the scanning loop claims the slot the table says |
| EthernetServer.Server.TakeByte | libraries/Ethernet/EthernetClient.cpp:316-357 | reads the first unread byte, moving to the next pbuf and freeing exactly the used up one |
| EthernetServer.Server.StopConnection | libraries/Ethernet/EthernetClient.cpp:412-457 | detaches and closes the pcb and frees the queue as the table says |
| EthernetServer.EthernetClient.CopyFrom | libraries/Ethernet/EthernetClient.cpp:46-66 | a copy never points into the original's own storage |
| EthernetServer.EthernetClient.IsStale | libraries/Ethernet/EthernetClient.h:62-64 | stale just when the slot's stamp is another one; a self-owned client never is |
| EthernetServer.EthernetClient.AvailableBytes | libraries/Ethernet/EthernetClient.cpp:292-299 | acts as the table says, following valid pbufs only |
| EthernetServer.EthernetClient.ReadByte | libraries/Ethernet/EthernetClient.cpp:316-361 | returns the byte the table says, or -1, and the pbufs left allocated are those still queued |
| EthernetServer.EthernetClient.PeekByte | libraries/Ethernet/EthernetClient.cpp:381-399 | returns the byte the table says, or -1, and changes nothing |
| EthernetServer.EthernetClient.Stop | libraries/Ethernet/EthernetClient.cpp:412-457 | acts as the table says; through a stale handle only the handle changes |
| EthernetServer.EthernetClient.StatusOf | libraries/Ethernet/EthernetClient.cpp:481-488 | the pcb's state, CLOSED for a stale or empty handle |
| EthernetServer.EthernetClient.IsConnected | libraries/Ethernet/EthernetClient.cpp:459-479 | connected as the table says, whatever flag a server handle carries |
| EthernetDriver.Receive | libraries/Ethernet/utility/tcp_in.c:1318-1336 | an arriving chain extends the heap by well-formed pbufs that belong to lwIP, and changes no slot |
| EthernetDriver.Lwip | libraries/Ethernet/EthernetServer.cpp:17-174 | every event of lwIP is carried out on the objects with the table's effect, keeping the heap accounted for |
| EthernetDriver.NetStepIs | libraries/Ethernet/EthernetServer.cpp:17-240 | that effect is the one every step of a run has |
| EthernetDriver.DeliverOn | libraries/Ethernet/EthernetServer.cpp:79-103 | delivery from the arrival of a chain to its end in a queue or back in the pool |
| EthernetDriver.Available | libraries/Ethernet/EthernetServer.cpp:184-225 | the call returns a new handle on the pending slot the table says, or an empty one |
| EthernetDriver.AcceptNext | libraries/Ethernet/EthernetServer.cpp:227-240 | the call returns a new handle on the slot it claims, or an empty one |
| Pbufs.PbufFree | libraries/Ethernet/utility/pbuf.c:617-694 | frees the longest front part of the list with counts of 1 and lowers the next count, each pbuf once |
| Pbufs.PbufCat | libraries/Ethernet/utility/pbuf.c:744-766 | links the lists and raises every `tot_len`, modulo 2^16 |
| Pbufs.JoinedChain | libraries/Ethernet/utility/pbuf.c:744-766 | the joined list is well formed and holds the payloads of both in order |
| Pbufs.RefThenFree | libraries/Ethernet/utility/pbuf.c:722-733 | raising the second count and freeing the list frees exactly the first pbuf |
| Pbufs.Appended | libraries/Ethernet/EthernetServer.cpp:79-103 | joining a delivered list to one queue leaves the others alone and the heap accounted for |
| Pbufs.Popped | libraries/Ethernet/EthernetClient.cpp:334-351 | freeing the first pbuf of one queue leaves the others alone and the heap accounted for |
| Pbufs.Emptied | libraries/Ethernet/EthernetServer.cpp:52-73 | freeing one queue leaves the others alone and the heap accounted for |
| StreamFind.Stream.FindMulti | cores/tivac/Stream.cpp:256-319 | stops after the shortest input that ends in some target, with the lowest such target, or takes all input and returns -1 |
| StreamFind.FirstOccurrenceUnique | cores/tivac/Stream.cpp:256-319 | that determines the result and the position |
| StreamFind.Step | cores/tivac/Stream.cpp:269-315 | each index stays the length of the longest beginning of its target that the input so far ends with |
| StreamFind.NextLongest | cores/tivac/Stream.cpp:282-314 | the fallback loop's choice is the longest one |
| StreamFind.Stream.FindUntil | cores/tivac/Stream.cpp:114-123 | true just when the target is read and no terminator before it; the stream is left right behind the string that ended the search |
| ReplaceText.ExpandExactly | cores/tivac/WString.cpp:668-685 | the expanding loop reaches the size computed before it, and gives the rightmost replacement, for every string, if and only if no proper end of `find` begins the replacement |
| ReplaceText.FeedWitness | cores/tivac/WString.cpp:668-685 | otherwise, a string on which it exceeds that size |
| ReplaceText.FirstCharEnough | cores/tivac/WString.cpp:668-685 | a replacement whose first character is not in `find` meets the condition |
| ReplaceText.CountsAgree | cores/tivac/WString.cpp:668-674 | scanning from the left and from the right make equally many replacements |
| ReplaceText.ExpandFits | cores/tivac/WString.cpp:674-685 | under the condition, the expanded text is the rightmost replacement and has the computed size |
| ReplaceText.ExpandIsLeftExactly | cores/tivac/WString.cpp:645-685 | the expanding branch gives the leftmost replacement, like the others, for every string, if and only if in addition `find` cannot overlap itself |
| ReplaceText.BorderWitness | cores/tivac/WString.cpp:668-685 | otherwise, a string on which it differs |
| ReplaceText.LeftIsRight | cores/tivac/WString.cpp:645-685 | without self-overlap the leftmost and the rightmost replacement are the same |
| ReplacePieces.ReplaceMeans | cores/tivac/WString.cpp:645-686 | every text can be cut at leftmost and at rightmost occurrences, into equally many pieces; the replacements are these pieces joined with the replacement |
| ReplacePieces.LeftJoined | cores/tivac/WString.cpp:651-667 | for every cut at leftmost occurrences, joining with the replacement is the leftmost replacement |
| ReplacePieces.RightJoined | cores/tivac/WString.cpp:676-685 | likewise from the right |
| StringReplace.String.Replace | cores/tivac/WString.cpp:645-686 | all branches: what the text becomes, and that the code stays inside its buffer exactly when the expanded text fits what was reserved, always so under the condition |
| StringReplace.String.ReplaceSame | cores/tivac/WString.cpp:651-655 | overwriting in place gives the leftmost replacement |
| StringReplace.String.ReplaceShorter | cores/tivac/WString.cpp:656-667 | compacting in place gives the leftmost replacement; the writer never overtakes the reader |
| StringReplace.String.SizeAfter | cores/tivac/WString.cpp:668-673 | the counting scan computes the size of the leftmost replacement |
| StringReplace.String.ExpandInPlace | cores/tivac/WString.cpp:676-685 | the right-to-left loop expands as specified, and stays inside the buffer exactly when the result fits |
| StringReplace.String.ReplaceLonger | cores/tivac/WString.cpp:668-685 | counting, growing and expanding together; nothing changes without memory |
| StringReplace.String.LastIndexOf | cores/tivac/WString.cpp:603-614 | the last occurrence starting at or before the index, overlapping ones included, or -1 |
| StringReplace.String.ChangeBuffer | cores/tivac/WString.cpp:157-166 | growing keeps the text, failing keeps everything |
| StringReplace.StrStr | cores/tivac/WString.cpp:652-669 | the first occurrence before the terminator, or none |
| SerialInterleaving.Reachable | cores/tivac/HardwareSerial.cpp:204-508 | the invariant holds after every interleaving of the interrupt handler with single steps of the calls |
| SerialInterleaving.SentInOrder | cores/tivac/HardwareSerial.cpp:204-236 | in every interleaving the bytes sent are a prefix of those `write()` was called with, and all of them between calls |
| SerialInterleaving.ReadOutcome | cores/tivac/HardwareSerial.cpp:385-397 | in every interleaving `read()` finds nothing just when the ring is empty at its test, and otherwise takes the first byte |
| SerialInterleaving.ReceivedInOrder | cores/tivac/HardwareSerial.cpp:385-508 | in every interleaving the bytes taken followed by the ring are the bytes accepted; the bytes that arrived are the accepted and the dropped ones, merged in order, and then the FIFO |
| SerialInterleaving.LostOnlyWhenFull | cores/tivac/HardwareSerial.cpp:480-507 | a byte is lost only in a step of the handler with size - 1 bytes in the ring |
| SerialInterleaving.AvailableExactly | cores/tivac/HardwareSerial.cpp:353-357 | in every reachable state, all interleavings of a call of `available()` return the queue length if and only if the read index is 0 or the write index is below it at the call |
| SerialInterleaving.AvailableGoesNegative | cores/tivac/HardwareSerial.cpp:353-357 | an interleaving in which it returns -1 |
| SerialRing.EmptyFull | cores/tivac/HardwareSerial.cpp:55-59 | the index tests for empty and full mean no bytes and size - 1 bytes |
| SerialRing.OneByteRing | cores/tivac/HardwareSerial.cpp:55-59 | an empty ring is full exactly when its size is 1 |
| SerialRing.Publish | cores/tivac/HardwareSerial.cpp:434-437 | advancing the write index appends the byte stored there |
| SerialRing.Consume | cores/tivac/HardwareSerial.cpp:385-397 | advancing the read index removes the first byte |
| HardwareSerial.Serial.Available | cores/tivac/HardwareSerial.cpp:353-357 | uninterrupted, the queue length |
| HardwareSerial.Serial.Peek | cores/tivac/HardwareSerial.cpp:359-383 | the first received byte, or -1 |
| HardwareSerial.Serial.Read | cores/tivac/HardwareSerial.cpp:385-397 | takes the first received byte, or -1, and leaves the other ring alone |
| HardwareSerial.Serial.PrimeTransmit | cores/tivac/HardwareSerial.cpp:204-236 | sends the whole ring in order |
| HardwareSerial.Serial.Write | cores/tivac/HardwareSerial.cpp:405-453 | waits while the ring is full until the handler has emptied it; the byte is sent after everything queued before it |
| HardwareSerial.Serial.Receive | cores/tivac/HardwareSerial.cpp:480-507 | moves the FIFO into the ring in order, dropping one byte only with the ring full |
| SysTickTime.ReadingExactly | cores/tivac/wiring.c:81-94 | a millisecond count and a counter value give the time of the sample, modulo 2^32, if and only if the count is that of the sample |
| SysTickTime.ExitExactly | cores/tivac/wiring.c:107-121 | the 24-bit exit test, for every start phase, in terms of the ticks really elapsed |
| SysTickTime.NeverEarly | cores/tivac/wiring.c:107-121 | it never holds before the requested ticks have passed, across reloads |
| SysTickTime.EndsInPeriod | cores/tivac/wiring.c:107-121 | and holds at every poll from one tick later until a period has passed |
| SysTickTime.StableRead | cores/tivac/wiring.c:81-94 | equal counts before and after mean no interrupt at the sample |
| Wiring.Clock.Advance | cores/tivac/wiring.c:232-241 | with the handler run at each reload, `milliseconds` is the number of reloads, modulo 2^32, at every tick |
| Wiring.Clock.MicrosNow | cores/tivac/wiring.c:81-94 | wherever interrupts fall between its reads, the value is the microseconds at an instant within the call; it goes on until it has one, and two attempts suffice when their reads fall within one period |
| Wiring.MicrosElapsed | cores/tivac/wiring.c:81-94 | so differences of two values, modulo 2^32, are the microseconds in between |
| Wiring.Clock.DelayShort | cores/tivac/wiring.c:107-121 | never early under any polling pattern; polled at least every `gap` ticks it ends at most `gap` ticks late, and while it waits no more than the requested ticks have passed |
| Wiring.Clock.DelayMicroseconds | cores/tivac/wiring.c:101-122 | never early, for every argument, through the recursion with `delay`; ends within a bound when polled regularly |
| Wiring.Clock.Delay | cores/tivac/wiring.c:124-130 | waits all its milliseconds below 2^31, returns at once at 2^31, and ends within a bound on the 32-bit double when polled regularly |
| Waiting.DelayExactly | cores/tivac/wiring.c:124-130 | `delay(ms)` waits at least `ms` milliseconds under every polling pattern if and only if `ms` is below 2^31 |
| Waiting.TooShort | cores/tivac/wiring.c:124-130 | otherwise, a polling pattern under which it completes early |
| Waiting.ReturnsAtOnce | cores/tivac/wiring.c:124-130 | at 2^31 it returns at once under every pattern |
| Waiting.MicrosWait | cores/tivac/wiring.c:101-130 | `delayMicroseconds` is never early and never gives up, for every argument and pattern |
| Waiting.MicrosEnd | cores/tivac/wiring.c:101-130 | polled regularly it is late by at most two gaps for each half millisecond and two for the rest |
| Raster.LineIsNearest | libraries/EduBPMKII_Screen/LCD_screen.cpp:152-188 | one pixel per major step, both endpoints, minor steps of at most 1, every pixel within half a pixel of the segment, whichever way round |
| Raster.LineSymmetric | libraries/EduBPMKII_Screen/LCD_screen.cpp:152-188 | both directions plot the same pixels |
| Raster.Line | libraries/EduBPMKII_Screen/LCD_screen.cpp:152-188 | the code with its swaps plots those pixels, or a dot or a filled strip for axis-aligned ends |
| Raster.WalkExactly | libraries/EduBPMKII_Screen/LCD_screen.cpp:172-186 | for all 16-bit endpoints, the wrapping loop ends with every pixel within half a pixel of the segment if and only if the distance is at most 32767 and the larger major coordinate is below 32767 |
| Raster.LoopEndsExactly | libraries/EduBPMKII_Screen/LCD_screen.cpp:178-186 | the loop ends if and only if the larger major coordinate is below 32767 |
| Raster.FarApart | libraries/EduBPMKII_Screen/LCD_screen.cpp:172-186 | beyond a distance of 32767 one of the first two pixels after the start is off the line |
| Raster.DrawFlat | libraries/EduBPMKII_Screen/LCD_screen.cpp:163-187 | the error loop plots the rounded quotients; nothing wraps while pixels are plotted |
| Raster.RoundedBounds | libraries/EduBPMKII_Screen/LCD_screen.cpp:163-187 | the rounded quotient is within half a pixel |
| Raster.OctantStep | libraries/EduBPMKII_Screen/LCD_screen.cpp:99-119 | one turn keeps f = x² + 2x + 1 + y² - y - r² in 16 bits and gives a nearest point |
| Raster.Octant | libraries/EduBPMKII_Screen/LCD_screen.cpp:99-119 | the octant has one point for each column up to the diagonal, each with x² + y² - y <= r² <= x² + y² + y |
| Random.DoRandom | cores/tivac/random.c:44-68 | for every 32-bit state nothing overflows and the next state is 16807 times the old one modulo 2^31 - 1 |
| Random.Injective | cores/tivac/random.c:44-68 | no two residues have the same successor |
| Random.ClosedForm | cores/tivac/random.c:44-86 | after k calls the state is 16807^k times the seed modulo 2^31 - 1, and not 0 |
| Random.ZeroExactly | cores/tivac/random.c:44-68 | the state 0 is reached from exactly two seeds |
| Random.AfterZero | cores/tivac/random.c:56-58 | and then the sequence is that of the replacement seed |
| Random.Generator.Random | cores/tivac/random.c:78-81 | the n-th call since seeding returns the n-th state |
| Random.Generator.Srandom | cores/tivac/random.c:83-86 | seeding starts the sequence of that seed |
| CanBitRate.Controller.BitRateSet | system/driverlib/can.c:553-671 | sets the fastest realizable rate not above the request, among the ratios from the clock over the rate on, with the greatest divisor; restores the control register; returns 0 exactly when even the largest ratio is too fast; for requests below 4124 clocks a bit the registers decode to the ratio, one of the first four |
| CanBitRate.ChosenIsFastest | system/driverlib/can.c:575-657 | the ratio found is at least the clock over the rate, its rate is not above the request, and every smaller realizable one is too fast |
| CanBitRate.Controller.WriteTiming | system/driverlib/can.c:608-651 | the registers are written only while the controller is unlocked, and the control register is restored |
| CanBitRate.RegisterIs | system/driverlib/can.c:101-133 | the layout of the table's register values |
| CanBitRate.Controller.Search | system/driverlib/can.c:586-665 | the outer loop |
| CanBitRate.GreatestDivisor | system/driverlib/can.c:591-602 | the inner loop finds the greatest divisor in 4..19, or none |
| CanBitRate.WrittenReadsBack | system/driverlib/can.c:482-521 | the written registers decode through `CANBitTimingGet` to the two segments, the jump width and the pre-divider modulo 1024 |
| CanBitRate.TableEntry | system/driverlib/can.c:115-133 | every table entry fits its fields, adds up to its divisor, and puts the sample point one quantum short of half a bit before its end |
| CanBitRate.WithinFour | system/driverlib/can.c:586-665 | at most four ratios are tried |
| CanBitRate.SmallRequests | system/driverlib/can.c:553-671 | for every request whose starting ratio is below 4124: at most four ratios are tried, the registers hold the one found, and neither the returned rate nor, up to a hertz, the bus is faster than requested |
| CanBitRate.SmallRatiosFit | system/driverlib/can.c:586-665 | below 4124 clocks a bit the pre-divider of the greatest divisor always fits |
| CanBitRate.PrescalerOverflows | system/driverlib/can.c:586-665 | 4124 clocks a bit come out as 28 |
| CanBitRate.RateNotAbove | system/driverlib/can.c:575-657 | the returned rate is never above the requested one |
| CanBitRate.BusFasterExactly | system/driverlib/can.c:575-657 | the bus, at the ratio in the registers, is faster than requested exactly when the pre-divider overflows, or the clock is no multiple of the rate, the rounded ratio is realizable and it rounds back to the rate |
| Numbers.DigitsAre | cores/tivac/Print.cpp:203-221 | the digits printed are a numeral of the number |
| Numbers.OnlyNumeral | cores/tivac/Print.cpp:203-221 | and no other sequence of digits without a leading zero is |
| Numbers.PrintersAgree | cores/tivac/itoa.c:131-167 | for bases 2 to 36 `ultoa` and `printNumber` write at most 32 digits, agree up to the case of letters, and evaluate back to the value |
| Numbers.TextInjective | cores/tivac/Print.cpp:203-221 | different numbers print differently |
| NumberPrinting.Print.PrintNumber | cores/tivac/Print.cpp:203-221 | filling the 33-byte buffer from its end never leaves it, and writes the numeral up to a NUL |
| NumberPrinting.WholeExactly | cores/tivac/Print.cpp:203-221 | the whole numeral is written if and only if it has no digit 201, so for all bases up to 201 |
| NumberPrinting.Print.PrintLong | cores/tivac/Print.cpp:87-101 | a sign and the magnitude in base 10, for the least value too; the 32-bit pattern in other bases; one byte for base 0 |
| NumberPrinting.PrintedMeans | cores/tivac/Print.cpp:87-101 | what is printed evaluates, in the base asked for, to the number or its two's complement; bases that reduce to 0 or 1 are base 10 |
| NumberPrinting.LongStringMeans | cores/tivac/itoa.c:74-122 | what `ltoa` stores evaluates to the number, behind a sign exactly for negative ones in base 10, and to its two's complement in other bases |
| Numbers.DigitCharacters | cores/tivac/Print.cpp:217 | digits print as 0 to 9 and then the letters from A, or a |
| NumberPrinting.Ultoa | cores/tivac/itoa.c:131-167 | stores the numeral and a NUL and leaves the rest of the buffer; refuses a null buffer and radices outside 2 to 36 |
| NumberPrinting.Ltoa | cores/tivac/itoa.c:74-122 | likewise with a sign in base 10 |
| NumberParsing.PeekNextDigit | cores/tivac/Stream.cpp:56-82 | passes over what the mode allows and stops at a sign or digit, or fails |
| NumberParsing.Passed | cores/tivac/Stream.cpp:56-82 | exactly the longest run of skippable characters is passed over |
| NumberParsing.ParseInt | cores/tivac/Stream.cpp:130-156 | the number read is the value of its digits, wrapped to 32 bits, and the stream is left right behind it |
| NumberParsing.WrapDigit | cores/tivac/Stream.cpp:142-152 | wrapping after every digit is the same as wrapping once |
| NumberParsing.RoundTripExactly | cores/tivac/Stream.cpp:130-156 | parsing a printed `long` leaves the stream right behind it for every value, mode and ignored character, and returns the value if and only if the ignored character is not printed, the value is 0, or it is the least value and the ignored character its sign |
| NumberParsing.ParsesSeparated | cores/tivac/Stream.cpp:56-156 | behind anything the mode passes over, a numeral with separators is read to its end, whatever its length, and returned in 32 bits; exactly the rest is left |
| NumberParsing.ParsesPrinted | cores/tivac/Stream.cpp:56-156 | so a `long` written with separators is returned |
| NumberParsing.ParsesNothing | cores/tivac/Stream.cpp:56-138 | without a number 0 is returned and the stream is left where the mode stops looking |

## Left out

- `EthernetClient::connect`, outgoing connections and their callbacks, and name lookup.
- `EthernetClient::flush`, `write`, `read(buf, size)` and `availableForWrite`; the receive window (`tcp_recved`).
- `EthernetUDP`, DHCP, and everything else of the network stack beyond the three pbuf functions.
- Interrupts inside `accept()`, `EthernetServer::available()`, `connected()` and the construction of a handle.
- Runs after an event that is not `Clean`, beyond the ones shown.
- EthernetServer.EthernetClient.CopyFrom: the copied bytes of a self-owned state, which are never read without `connect`.
- StringReplace.String.Replace: what happens after a write past the buffer, which the model reports instead; sizes do not wrap at 32 bits.
- `String::concat`, `substring`, `toInt` and the rest of `String`; replacing a string by or in itself.
- HardwareSerial.Serial.Write: requires two bytes or more of buffer, since with one the wait never ends.
- HardwareSerial.Serial.Receive: the receive half of the handler, without the error bits of received words; its transmit half is `PrimeTransmit`, and `SerialInterleaving` has both.
- `HardwareSerial::begin`, `flush`, `setBufferSize`, pin and baud rate setup.
- Wiring.Clock.MicrosNow: the three reads of one attempt span fewer than 2^32 - 1 ms, so that the count does not come round to the same value.
- `SysTickIntHandler`'s callback table, sleep modes, clock setup, startup code.
- Raster.Line: the endpoints for which the loop does not end or leaves the line, given by `Raster.WalkExactly`.
- Raster.Octant: radii up to 16384, the largest whose double fits 16 bits; the seven reflections of each point, the solid pen and clipping.
- Triangles, rectangles, fonts, touch, and the screen controller.
- `random(min, max)` and the seeding from `randomSeed`.
- CanBitRate.Controller.BitRateSet: the ratio is within the bounds the code asserts.
- `CANBitTimingSet`, message objects, and the other peripheral drivers.
- Printing and parsing of floating point numbers; `parseFloat`'s decimal point in `peekNextDigit`.
- WiFi, SLFS, SPI, Servo, Tone, GPIO and analog libraries.
