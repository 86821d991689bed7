# Proofs about the UDT transport, its JSON reader and its MD5

This project models the parts of the repository on which everything else depends: the
reliable transfer engine of the UDT4 library it carries, the JSON printer, parser and
minifier, and the streaming part of MD5.

UDT moves a stream of bytes, or a sequence of messages, over datagrams. The sender cuts data
into numbered packets and keeps them in a ring of blocks until they are acknowledged. The
receiver puts packets into a ring of units, keeps a list of the numbers it is missing, reports
them as they appear, and acknowledges the least number it does not have. Numbers on the wire
have 31 bits and wrap.

## How the model is built

There are three layers.

1. **What a connection does, on unbounded numbers.** `SenderSpec`, `ReceiverSpec` and
   `MessageSpec` say what each step makes of the state. `Protocol` joins one sender, one
   receiver and a network that may lose, repeat, delay and reorder everything that was ever
   sent, as a transition system with ten kinds of events. `Guarantees` and `MessageRuns`
   hold the theorems about every state of every run, `Progress` shows that every connection
   can be finished from wherever it is. `Effects` says of each kind of event what it does in
   terms of the states before and after it alone, and proves that a step of a run is exactly
   that: there is no other state with these properties.
2. **The data structures and the two halves of a connection, as the program has them.** The
   classes `SndLossList`, `RcvLossList`, `SndBuffer`, `RcvBuffer`, `AckWindow`, `Sender` and
   `Receiver` hold the same fields, arrays and links, with wrapped numbers, and change them in
   place. Each method is proved to do exactly what layer 1 says; absolute numbers are ghost
   state only. `Connection` joins running objects of the two classes: whatever methods are
   called in whatever order, what comes out of `Read` is a prefix of what went into `Send`, and
   every call has the effect that `Effects` says.
   `SendHeap` and `ReceiveTimers` hold the two schedulers.
3. **Arithmetic and representation.** `SeqNo` relates wrapped to absolute numbers; `Ring` is
   about positions in rings; `Intervals`, `LossTable` and `LossChain` are about sets stored as
   intervals in linked slots of static arrays; `LossReport` is the coding of loss reports.

The modules whose names begin with `Json` belong to `src/cJSON.c`, `Md5` to
`extern_lib/udt4/src/md5.cpp`; they use nothing of the rest but bytes and positions. `JsonSpec` is
the format as the program reads and writes it. `JsonGrammar` is a grammar of the accepted texts
and proves that the parser reads exactly those; `JsonEscapes` and `JsonNumbers` say what string
literals and number texts stand for; `JsonRoundTrip` connects printing and parsing. `JsonSizes`
is about what the printer and the parser allocate, `JsonMinify` and `JsonComments` about the
minifier, and `JsonText` holds the program's own loops and switches.

Definitions that are costly to have in view are stated under a condition that always holds
(`Inside`, `Opened`, `Seen` and the like); asserting it opens the definition in one proof.

## Assumptions

- An initial sequence number is at least 1: the program computes `m_iISN - 1`, not `decseq`
  (extern_lib/udt4/src/core.cpp:612).
- The receive buffer is no larger than the flow window, as extern_lib/udt4/src/core.cpp:107
  demands, and twice the flow window fits the number space.
- A packet that is delivered is less than 2^30 - 1 numbers away from the window it meets. That
  is what the preconditions `Near(...)` of `Sender` and `Receiver` say; `DataIsNear`,
  `AckIsNear`, `LiteAckIsNear` and `NakIsNear` show that in every run one such distance per
  packet implies all of them. The last acknowledged acknowledgement stays as near to the next one.
- The flow window is below 357,913,942, a sixth of 2^31, so that the sums from which the loss
  lists compute slots fit 32 bits: `SlotSumsFit` says that this is the exact bound for a list of
  twice the window.
- For progress, and for that alone, the numbers of acknowledgements have not wrapped: after 2^31
  of them an old acknowledgement of an acknowledgement would be taken for one of the latest.
- Every operation done under a lock is one step. Taking a number from the loss list and sending
  it again are two steps, because the lock that keeps acknowledgements out is only taken
  between them. Times, congestion windows and what a socket does when it is served are inputs.
- Acknowledgements come from a peer that runs the same protocol. A full acknowledgement of
  unsent data breaks the connection, as in the code; a lite one is not checked by the code, and
  `Sender.OnLiteAck` asks for one of sent data, which `LiteAckIsNear` proves of every lite
  acknowledgement in a run.

## Where the code departs from its intent

- `CRcvLossList::remove(seqno1, seqno2)` leaves 2^31 - 1 in when the range wraps. `RemoveRange`
  says what it removes, `RangeRemoved` when that is the whole range.
- `CSndUList::remove_` only lets an entry sink. `SndUList.Take` says exactly when the heap stays
  in order; `InteriorRemovalBreaksOrder` is an example where it does not.
- `scanMsg` takes the buffer for empty when the only packet there is the first one not
  acknowledged. `ScanExact` says exactly when a message is found; `LoneMessageMissed` is an
  example of one that is there and is not found.
- When an unfinished message fills the whole buffer, `scanMsg` says it found one and `readMsg`
  copies nothing: `RcvBuffer.ScanMsg` says exactly when, and `RcvBuffer.ReadMsg` returns nothing
  whenever `Scan` misses.
- `seqlen` of two numbers that enclose all others is 2^31 and leaves the range of its type:
  `InIntRange`.
- `md5_append` adds the offset in its buffer to the number of bytes in a 32-bit int. When the sum
  overflows it would copy past the end of the buffer: `CopyStays` says exactly when, `CopyOverruns`
  is an example, one byte followed by 2^31 - 1 more.
- The JSON parser takes more than RFC 8259 allows: any character up to 32 as white space, a leading
  zero before other digits, a minus sign without digits, unknown escapes as their letter, and a
  string that the text ends in. `ReadsExactly`, `NumberRead`, `InvalidDropped` and the definition
  of `StringBody` say what becomes of them.
- The star that opens a comment may also close it for `cJSON_Minify`: of a comment that begins with
  a slash, `/*/`, the rest is left in the text. `ClosesUnlessSlash` says that this is the only
  difference from comments that close at the first mark behind the opening one; `StarCountsTwice`
  is an example.
- The handling of an empty object by the formatted printer indents the closing brace one tab
  less than for other objects; the model does the same.

## Model

| member | source | states |
|---|---|---|
| SeqNo.NearAgrees | extern_lib/udt4/src/common.h:226-241 | for numbers less than 2^30 - 1 apart, comparison, offset and inclusive length of the wrapped numbers are those of the integers |
| SeqNo.IncAgrees | extern_lib/udt4/src/common.h:243-244 | incseq of a wrapped number is the next number, wrapped |
| SeqNo.DecAgrees | extern_lib/udt4/src/common.h:246-247 | decseq of a wrapped number is the number before, wrapped |
| SeqNo.IncByAgrees | extern_lib/udt4/src/common.h:249-250 | incseq with an increment counts that many numbers on |
| SeqNo.OffsetOfInc | extern_lib/udt4/src/common.h:232-250 | seqoff from a number to the one k places on is k |
| SeqNo.CmpOrders | extern_lib/udt4/src/common.h:226-227 | seqcmp is antisymmetric, transitive and zero only on equal numbers within any window of 2^30 - 1 numbers, also across the wrap |
| SeqNo.InIntRange | extern_lib/udt4/src/common.h:226-241 | which results fit 32 bits: all but the length of all 2^31 numbers |
| SeqNo.BoundIsTight | extern_lib/udt4/src/common.h:226-241 | at distance 2^30 - 1 comparison and offset already have the wrong sign |
| SenderLoss.SndLossList.constructor | extern_lib/udt4/src/list.cpp:43-70 | an empty, well-formed list |
| SenderLoss.SndLossList.Insert | extern_lib/udt4/src/list.cpp:85-255 | the set becomes its union with the range and the result is how many numbers are new, whatever intervals the range meets, covers or joins; order, slots, links, blank slots, length and hint stay right |
| SenderLoss.SndLossList.Remove | extern_lib/udt4/src/list.cpp:257-367 | exactly the numbers up to the given one go |
| SenderLoss.SndLossList.GetLostSeq | extern_lib/udt4/src/list.cpp:376-418 | takes out and returns the least number, or -1 from an empty list |
| SenderLoss.SndLossList.GetLossLength | extern_lib/udt4/src/list.cpp:369-374 | the cached length is the size of the set |
| SenderLoss.SndLossList.Coalesce | extern_lib/udt4/src/list.cpp:218-252 | merging overtaken nodes keeps the set, restores disjointness and corrects the length |
| SenderLoss.SlotSumsFit | extern_lib/udt4/src/list.cpp:108-109 | the size up to which the sums that give the slots fit 32 bits |
| ReceiverLoss.RcvLossList.constructor | extern_lib/udt4/src/list.cpp:422-443 | an empty, well-formed list |
| ReceiverLoss.RcvLossList.Insert | extern_lib/udt4/src/list.cpp:453-499 | a later range is added, extending the last pair or as a new node; both link directions, slots and length stay right |
| ReceiverLoss.RcvLossList.Remove | extern_lib/udt4/src/list.cpp:501-629 | exactly the given number goes, at the start, middle or end of an interval, and the result is true if and only if it was there; next and prior links stay inverse |
| ReceiverLoss.RcvLossList.SearchBack | extern_lib/udt4/src/list.cpp:579-582 | the backward search over slots ends at the last node before the number |
| ReceiverLoss.RcvLossList.RemoveRange | extern_lib/udt4/src/list.cpp:631-647 | the range goes, except 2^31 - 1 when its numbers wrap |
| ReceiverLoss.RangeRemoved | extern_lib/udt4/src/list.cpp:631-647 | the whole range goes if and only if it does not wrap or that number was not in the list |
| ReceiverLoss.RangeNotRemoved | extern_lib/udt4/src/list.cpp:640-641 | an example where a number stays |
| ReceiverLoss.RcvLossList.Find | extern_lib/udt4/src/list.cpp:649-667 | true if and only if a number of the range is missing |
| ReceiverLoss.RcvLossList.GetFirstLostSeq | extern_lib/udt4/src/list.cpp:674-680 | the least missing number, or -1 |
| ReceiverLoss.RcvLossList.GetLossLength | extern_lib/udt4/src/list.cpp:669-672 | the cached length is the size of the set |
| ReceiverLoss.RcvLossList.GetLossArray | extern_lib/udt4/src/list.cpp:682-703 | the words written are the report of the first nodes of the list, in order, each a run of missing numbers: of all nodes, or of those before the one at bound when fewer than two words are left; nothing is written only when nothing is missing or there is no room; never more words than the limit |
| LossReport.EncodeNext | extern_lib/udt4/src/list.cpp:682-703 | a single number takes one word, a range two, the first of them with the high bit set |
| LossReport.ParseEncode | extern_lib/udt4/src/core.cpp:2120-2161 | decoding a report gives the ranges it was made of, in order |
| LossReport.NamedPrefix | extern_lib/udt4/src/list.cpp:682-703 | the ranges of the first nodes of a list name exactly its numbers before the next node |
| LossReport.ListsReports | extern_lib/udt4/src/list.cpp:682-703 | such a report consists of runs of missing numbers in ascending order and names all of them, or all before bound, which is missing too |
| SenderHalf.ReportArrives | extern_lib/udt4/src/core.cpp:2111-2161 | the words that report missing numbers, all of them sent, decode to the same ranges, add to the sender's list exactly those named and not before the last acknowledged one, and do not break the connection |
| Packets.JoinPacketize | extern_lib/udt4/src/buffer.cpp:120-164 | the payloads of the packets made of some data, joined, are the data; every packet has 1 to mss bytes |
| Packets.PacketizeIsFraming | extern_lib/udt4/src/buffer.cpp:120-164 | the packets are the data cut every mss bytes, no more of them than that takes, each marked with number, order and place |
| Packets.FramingUnique | extern_lib/udt4/src/buffer.cpp:120-164 | there is only one such sequence of packets |
| Packets.FieldRoundTrip | extern_lib/udt4/src/buffer.cpp:144-148 | number, order and boundary marks can be read back from the message field, and which bits hold the marks |
| Packets.MsgNosDiffer | extern_lib/udt4/src/buffer.cpp:160-162 | message numbers stay between 1 and the largest but one, and differ unless as many messages as there are numbers lie between |
| SendBuffer.SndBuffer.constructor | extern_lib/udt4/src/buffer.cpp:47-92 | an empty ring of linked blocks |
| SendBuffer.SndBuffer.AddBuffer | extern_lib/udt4/src/buffer.cpp:120-164 | the packets of the message come behind the blocks in use, the ring grows first when they do not fit, and the message number goes on |
| SendBuffer.SndBuffer.Increase | extern_lib/udt4/src/buffer.cpp:285-342 | a unit of new blocks is hooked in behind the last one and nothing in use moves |
| SendBuffer.SndBuffer.ReadNext | extern_lib/udt4/src/buffer.cpp:217-230 | the next block not sent yet, if there is one, and the cursor moves |
| SendBuffer.SndBuffer.ReadAt | extern_lib/udt4/src/buffer.cpp:232-266 | the block at an offset from the first one |
| SendBuffer.SndBuffer.AckData | extern_lib/udt4/src/buffer.cpp:268-278 | the first blocks leave the buffer, the others keep their order |
| SenderSpec.RoomFills | extern_lib/udt4/src/core.cpp:1091-1116 | send takes all of the data, or fills the buffer to the last block with packets of the full size |
| SenderSpec.RetransmitKeeps | extern_lib/udt4/src/core.cpp:2274-2309 | what is sent again under a number is what was first sent under it |
| SenderSpec.RetransmitSends | extern_lib/udt4/src/core.cpp:2274-2309 | a number taken from the loss list is sent again if and only if it was not acknowledged meanwhile |
| SenderSpec.SendNewKeeps | extern_lib/udt4/src/core.cpp:2310-2344 | a new packet takes the next number and the next block of the history; it goes out if and only if there is a block and one more packet is within the congestion window and within the flow window |
| SenderSpec.OnLiteAckKeeps | extern_lib/udt4/src/core.cpp:1968-1979 | a lite acknowledgement leaves the right edge of the window where it is |
| SenderSpec.OnAckKeeps | extern_lib/udt4/src/core.cpp:1994-2036 | a full acknowledgement releases a prefix of the buffer and keeps buffer, cursor, loss list and window in step |
| SenderSpec.OnAckSpares | extern_lib/udt4/src/core.cpp:2006-2036 | positions become the larger of the old one and the acknowledged one, an old acknowledgement says nothing of the window, and exactly the acknowledged numbers leave the loss list |
| SenderSpec.OnAckBreaks | extern_lib/udt4/src/core.cpp:1997-2004 | an acknowledgement breaks the connection if and only if it covers unsent data, and then does nothing else |
| SenderSpec.OnLossKeeps | extern_lib/udt4/src/core.cpp:2120-2161 | a loss report only marks numbers that are out |
| SenderSpec.OnNakAdds | extern_lib/udt4/src/core.cpp:2120-2161 | which numbers a report of sent ranges adds |
| SenderSpec.OnNakBreaks | extern_lib/udt4/src/core.cpp:2120-2173 | a report breaks the connection if and only if a range is reversed or was not all sent |
| SenderSpec.OnNakUpTo | extern_lib/udt4/src/core.cpp:2120-2173 | what such a report adds before it breaks the connection |
| SenderSpec.ReportMarks | extern_lib/udt4/src/core.cpp:2120-2161 | which numbers a report of missing numbers adds: those not before the last acknowledged one, up to where the report had to stop |
| SenderSpec.OnTimeoutKeeps | extern_lib/udt4/src/core.cpp:2614-2626 | the expiration timer marks only numbers that are out |
| SenderHalf.Sender.constructor | extern_lib/udt4/src/core.cpp:607-613 | the initial wrapped state stands for the initial absolute one |
| SenderHalf.Sender.Send | extern_lib/udt4/src/core.cpp:1091-1116 | the step of the specification; it takes all of the data, or fills the buffer to the last block with packets of the full size |
| SenderHalf.Sender.TakeLost | extern_lib/udt4/src/core.cpp:2274-2275 | the number taken is the least lost one, on the wire |
| SenderHalf.Sender.Resend | extern_lib/udt4/src/core.cpp:2276-2309 | with wrapped numbers and linked blocks, the step of the specification |
| SenderHalf.Sender.SendNew | extern_lib/udt4/src/core.cpp:2310-2344 | with wrapped numbers and linked blocks, the step of the specification; a packet goes out if and only if there is a block and both windows have room for one more |
| SenderHalf.Sender.OnLiteAck | extern_lib/udt4/src/core.cpp:1968-1979 | the step of the specification |
| SenderHalf.Sender.OnAck | extern_lib/udt4/src/core.cpp:1994-2036 | the step of the specification, for new, repeated, old and impossible acknowledgements; numbers that are lost and not acknowledged stay lost |
| SenderHalf.Sender.OnNak | extern_lib/udt4/src/core.cpp:2111-2173 | decoding the words and inserting entry by entry does what the specification says of the named ranges, up to the first impossible entry |
| SenderHalf.Sender.OnTimeout | extern_lib/udt4/src/core.cpp:2614-2626 | the step of the specification |
| ReceiverSpec.OnDataKeeps | extern_lib/udt4/src/core.cpp:2409-2445 | storing a packet and correcting the loss list keeps the ledger exact |
| ReceiverSpec.OnDataStores | extern_lib/udt4/src/core.cpp:2409-2433 | a packet is refused only when it was had before or does not fit; a report is due if and only if the loss list grows, and its range is exactly what became missing |
| ReceiverSpec.NextAckIsLeast | extern_lib/udt4/src/core.cpp:1746-1753 | the number an acknowledgement carries is the least one not received |
| ReceiverSpec.SendAckKeeps | extern_lib/udt4/src/core.cpp:1768-1836 | only received packets pass the acknowledged position; the window told is between 2 and the buffer size |
| ReceiverSpec.OnAck2Keeps | extern_lib/udt4/src/core.cpp:2085-2108 | the last acknowledged acknowledgement only grows and never passes the last one sent |
| ReceiverSpec.TakeIsPrefix | extern_lib/udt4/src/buffer.cpp:391-426 | reading takes the first bytes of what is acknowledged, across packets and a partly read one, and the rest stays |
| ReceiverSpec.ReadAdvances | extern_lib/udt4/src/buffer.cpp:391-426 | the bytes read are those that follow the reader's position in the stream, and the position moves behind them |
| ReceiveBuffer.UnitQueue.Take | extern_lib/udt4/src/buffer.cpp:383-386 | the shared count is the number of units in use |
| ReceiveBuffer.UnitQueue.Release | extern_lib/udt4/src/buffer.cpp:409-415 | the shared count is the number of units in use |
| ReceiveBuffer.RcvBuffer.constructor | extern_lib/udt4/src/buffer.cpp:346-358 | an empty ring |
| ReceiveBuffer.RcvBuffer.AddData | extern_lib/udt4/src/buffer.cpp:374-389 | a unit is stored under its number and nothing that is held is overwritten, or it is refused because the number is held |
| ReceiveBuffer.RcvBuffer.AckData | extern_lib/udt4/src/buffer.cpp:467-475 | the acknowledged position moves and the farthest offset with it |
| ReceiveBuffer.RcvBuffer.GetAvailBufSize | extern_lib/udt4/src/buffer.cpp:477-489 | the free places, from positions that may have wrapped |
| ReceiveBuffer.RcvBuffer.ReadBuffer | extern_lib/udt4/src/buffer.cpp:391-426 | the bytes out, the packets left, the notch and the units given back are those of the byte queue |
| ReceiveBuffer.RcvBuffer.SkipBad | extern_lib/udt4/src/buffer.cpp:552-593 | positions are given up to the first where a message may start |
| ReceiveBuffer.RcvBuffer.ScanMsg | extern_lib/udt4/src/buffer.cpp:546-651 | the slots found are those of the message the specification finds; otherwise it says found exactly when an unfinished message fills the buffer |
| ReceiveBuffer.RcvBuffer.ReadMsg | extern_lib/udt4/src/buffer.cpp:498-537 | the bytes of exactly that message, as many as are wanted; an acknowledged one leaves the ring, another is marked as read |
| MessageSpec.PacketizeFramed | extern_lib/udt4/src/buffer.cpp:120-164 | a message's packets are marked as one message, of one kind and number |
| MessageSpec.ReadDelivers | extern_lib/udt4/src/buffer.cpp:498-651 | what is read is one whole message, none of it delivered before and all of it delivered now; an ordered one only when all before it is delivered |
| MessageSpec.ScanExact | extern_lib/udt4/src/buffer.cpp:546-651 | a message is found if and only if one may be read and the buffer does not seem empty |
| MessageSpec.ScanEarliest | extern_lib/udt4/src/buffer.cpp:595-651 | of the messages that may be read the first one is found |
| MessageSpec.ReadLeaves | extern_lib/udt4/src/buffer.cpp:498-593 | what a read leaves: the buffer starts behind an acknowledged message that was read, and otherwise at the first packet not read; the rest stays, and what was read of it is marked |
| MessageSpec.LoneMessageMissed | extern_lib/udt4/src/buffer.cpp:548-550 | an example of a readable message that is not found |
| MessageSpec.SkipDelivered | extern_lib/udt4/src/buffer.cpp:552-593 | nothing is skipped that was not read before, and what follows begins a message |
| MessageRuns.ExactlyOnce | extern_lib/udt4/src/buffer.cpp:374-651 | in every run the messages read are whole, no packet is in two of them, ordered ones come after all before them, and what is gone was read |
| AckHistory.AckWindow.Store | extern_lib/udt4/src/window.cpp:70-81 | the ring is a queue of the latest size - 1 records |
| AckHistory.AckWindow.Acknowledge | extern_lib/udt4/src/window.cpp:83-143 | the record's number and round trip time come back, and it and all older ones go, in both layouts of the ring; an unknown number changes nothing |
| ReceiverHalf.Receiver.constructor | extern_lib/udt4/src/core.cpp:829-831 | the initial wrapped state stands for the initial absolute one |
| ReceiverHalf.Receiver.OnData | extern_lib/udt4/src/core.cpp:2409-2448 | the step of the specification with wrapped numbers, ring and list; a loss report goes out if and only if the loss list grows, and its words are those of the gap |
| ReceiverHalf.Receiver.SendLiteAck | extern_lib/udt4/src/core.cpp:1743-1765 | the number told is the least one not received, or nothing is sent |
| ReceiverHalf.Receiver.SendAck | extern_lib/udt4/src/core.cpp:1766-1838 | the step of the specification |
| ReceiverHalf.Receiver.SendReport | extern_lib/udt4/src/core.cpp:1869-1889 | the words are the report of all that is missing, as far as the packet has room |
| ReceiverHalf.Receiver.OnAck2 | extern_lib/udt4/src/core.cpp:2085-2108 | the step of the specification |
| ReceiverHalf.Receiver.Read | extern_lib/udt4/src/core.cpp:1122-1207 | the step of the specification: the next bytes of the stream |
| Protocol.StepKeeps | extern_lib/udt4/src/core.cpp:1737-2448 | every event keeps the invariant of the whole connection |
| Protocol.RunInv | extern_lib/udt4/src/core.cpp:1737-2448 | it holds in every state of every run |
| Guarantees.StreamSafety | extern_lib/udt4/src/core.cpp:1013-1207 | the bytes read are always a prefix of the bytes added, both only grow, and no connection breaks |
| Guarantees.RetransmissionFidelity | extern_lib/udt4/src/core.cpp:2263-2345 | all packets ever sent under one number are equal |
| Guarantees.AcksAreTrue | extern_lib/udt4/src/core.cpp:1743-2036 | whatever is acknowledged or released by the sender has been received |
| Guarantees.LedgerExact | extern_lib/udt4/src/core.cpp:2409-2445 | the receiver's loss list is exactly what is missing, and the next acknowledgement carries the least missing number |
| Guarantees.ReportHeals | extern_lib/udt4/src/core.cpp:1869-2173 | a report sent in one state of a run and delivered in a later one adds exactly what was missing then, is named, and is not acknowledged by now, and never breaks the connection |
| Guarantees.WindowBound | extern_lib/udt4/src/core.cpp:1968-2036 | what is out, what is lost and the window's edge stay within the widest window from the first number not released |
| Guarantees.SlotsDiffer | extern_lib/udt4/src/core.cpp:762-763 | numbers out at the same time never share a slot of a list of twice the window |
| Guarantees.RunGrows | extern_lib/udt4/src/core.cpp:1737-2448 | acknowledged positions, sent numbers and the stream never go back |
| Guarantees.Flush | extern_lib/udt4/src/core.cpp:1122-1207 | once the sender's buffer is empty, one read gives the reader all that was added |
| Guarantees.TimeoutResends | extern_lib/udt4/src/core.cpp:2614-2626 | after a timeout with nothing marked lost, taking and sending again k times sends the first k numbers that are out, in order, each as it was first sent |
| Progress.TimeoutRun | extern_lib/udt4/src/core.cpp:2274-2626 | from such a state of a run, a timeout followed by a round for each number that is out are events the run can go on with, and put exactly these packets on the network |
| Progress.WindowStays | extern_lib/udt4/src/core.cpp:1800-1815 | a sender that knows nothing but full acknowledgements always has a window of at least two packets |
| Progress.RunLive | extern_lib/udt4/src/core.cpp:1737-2448 | in every run the receiver takes nothing for known that the sender does not know, as long as the numbers of acknowledgements have not wrapped |
| Progress.AlwaysFinishes | extern_lib/udt4/src/core.cpp:1737-2626 | from every such state of every run some events, delivering only packets they send themselves, make the reader have all that was accepted and empty the sender's buffer: there is no deadlock, even when all that was on its way is lost |
| Progress.RunsOn | extern_lib/udt4/src/core.cpp:1737-2626 | these events make a longer run |
| Effects.RunEffect | extern_lib/udt4/src/core.cpp:1013-2626 | every event of every run has the effect stated for it on all parts of the state, in terms of the states before and after alone |
| Effects.StepIsEffect | extern_lib/udt4/src/core.cpp:1013-2626 | and no other state has it: the step of the specification is determined by these statements |
| Effects.RunBounded | extern_lib/udt4/src/core.cpp:1091-1836 | the sender's buffer never holds more than its size, message numbers stay within 1 and the largest, and at most 1023 acknowledgements are remembered |
| Effects.SendFills | extern_lib/udt4/src/core.cpp:1091-1116 | in every run send takes all of the data, or as many full packets as there are free blocks, which fills the buffer |
| Effects.WindowHolds | extern_lib/udt4/src/core.cpp:2310-2317 | a new packet goes out only if, with it, no more packets are out than the congestion and the flow window allow; none goes out only if all blocks were sent or one more would exceed one of them |
| Effects.AckSpares | extern_lib/udt4/src/core.cpp:1994-2036 | after a full acknowledgement a number is lost if and only if it was lost and is not acknowledged; both positions become the larger number, and the window is the one told unless the acknowledgement is old |
| Effects.GapReported | extern_lib/udt4/src/core.cpp:2416-2428 | a data packet causes a loss report if and only if the loss list grows, and the report names exactly what became missing |
| Effects.MissingReported | extern_lib/udt4/src/core.cpp:2416-2428 | in every state of every run each missing number is named by a loss report that was sent |
| Effects.TellsLiteEffect | extern_lib/udt4/src/core.cpp:1743-1765 | a lite acknowledgement carries the least number not received, and is sent unless the sender is known to know it |
| Effects.TellsEffect | extern_lib/udt4/src/core.cpp:1743-1838 | so does a full one, unless it repeats one before it is due; the window told is the free space, but at least 2; it gets the next number and is remembered |
| Effects.HearsAck2Effect | extern_lib/udt4/src/core.cpp:2085-2108 | the record of the acknowledgement and all older ones go, and its position becomes the last acknowledged one if that is larger and the round trip time is positive; an unknown number changes nothing |
| Effects.HandsOutEffect | extern_lib/udt4/src/buffer.cpp:391-426 | a read yields the next bytes, as many as wanted or as are acknowledged, and packets read to their end leave the buffer |
| Effects.MessagesNumbered | extern_lib/udt4/src/buffer.cpp:120-164 | the messages of a run are numbered one after the other |
| Guarantees.DataIsNear | extern_lib/udt4/src/core.cpp:2409-2414 | a data packet of a run that is not too old meets the preconditions of the receiver's method |
| Guarantees.AckIsNear | extern_lib/udt4/src/core.cpp:1994-2036 | the same for full acknowledgements, which never cover unsent data |
| Guarantees.LiteAckIsNear | extern_lib/udt4/src/core.cpp:1968-1979 | the same for lite acknowledgements |
| Guarantees.NakIsNear | extern_lib/udt4/src/core.cpp:2111-2173 | the same for loss reports |
| Connection.Connection.Send | extern_lib/udt4/src/core.cpp:1013-1120 | the running halves take the event of the run, with the effect stated for it; what was accepted grows by the bytes taken |
| Connection.Connection.Read | extern_lib/udt4/src/core.cpp:1122-1207 | the running halves take the event of the run; all bytes read so far are a prefix of all bytes accepted so far |
| Connection.Connection.TakeLost | extern_lib/udt4/src/core.cpp:2274-2275 | the running sender takes the event of the run |
| Connection.Connection.Resend | extern_lib/udt4/src/core.cpp:2276-2309 | the same, and the packet that goes out is on the network of the run |
| Connection.Connection.SendNew | extern_lib/udt4/src/core.cpp:2310-2344 | the same for a new packet, which goes out exactly when both windows have room for it |
| Connection.Connection.PackData | extern_lib/udt4/src/core.cpp:2274-2345 | a lost number is sent again whenever there is one; a new packet goes out only otherwise |
| Connection.Connection.OnTimeout | extern_lib/udt4/src/core.cpp:2614-2626 | the running sender takes the event of the run |
| Connection.Connection.OnAck | extern_lib/udt4/src/core.cpp:1994-2036 | the same for every full acknowledgement of the run that is not too old; what it does not cover stays lost |
| Connection.Connection.OnLiteAck | extern_lib/udt4/src/core.cpp:1968-1979 | the same for lite acknowledgements |
| Connection.Connection.OnNak | extern_lib/udt4/src/core.cpp:2111-2173 | the same for the words of loss reports |
| Connection.Connection.OnData | extern_lib/udt4/src/core.cpp:2409-2448 | the running receiver takes the event of the run, with the effect stated for it: a loss report goes out exactly when the loss list grows; its words are those of the gap put on the network |
| Connection.Connection.SendLiteAck | extern_lib/udt4/src/core.cpp:1743-1765 | the number told is on the network of the run |
| Connection.Connection.SendAck | extern_lib/udt4/src/core.cpp:1766-1838 | the acknowledgement told is on the network of the run |
| Connection.Connection.SendReport | extern_lib/udt4/src/core.cpp:1869-1889 | the report goes on the network of the run, and nothing else changes |
| Connection.Connection.OnAck2 | extern_lib/udt4/src/core.cpp:2085-2108 | the running receiver takes the event of the run |
| SendHeap.SndUList.Insert | extern_lib/udt4/src/queue.cpp:255-280 | as below, growing the array first when it is full |
| SendHeap.SndUList.Put | extern_lib/udt4/src/queue.cpp:355-401 | the node is added once and knows its place; a heap in order stays in order |
| SendHeap.SndUList.Take | extern_lib/udt4/src/queue.cpp:403-442 | exactly the node goes, every other one knows its place, and a heap in order stays so if and only if the last entry is not too small for its new parent |
| SendHeap.SndUList.Update | extern_lib/udt4/src/queue.cpp:282-304 | the node is on the heap afterwards, and due at once when it was not there or is rescheduled; with no time below 1, a heap in order stays so if and only if no interior node is rescheduled or the last entry is not too small for the parent of the one that is |
| SendHeap.SndUList.Pop | extern_lib/udt4/src/queue.cpp:306-336 | the first node is taken only when it is due, and the heap stays in order |
| SendHeap.SndUList.GetNextProcTime | extern_lib/udt4/src/queue.cpp:345-353 | the least time on a heap in order |
| SendHeap.InteriorRemovalBreaksOrder | extern_lib/udt4/src/queue.cpp:403-442 | an example of a removal after which the heap is out of order |
| SendHeap.StaysBroken | extern_lib/udt4/src/queue.cpp:282-442 | an order broken by taking a node out is not repaired by what is inserted next |
| ReceiveTimers.RcvUList.Insert | extern_lib/udt4/src/queue.cpp:582-601 | the node comes last and the list stays sorted by time |
| ReceiveTimers.RcvUList.Remove | extern_lib/udt4/src/queue.cpp:603-632 | exactly the node goes; links and order stay right |
| ReceiveTimers.RcvUList.Update | extern_lib/udt4/src/queue.cpp:634-662 | the node moves to the end with the present time; the list stays sorted |
| ReceiveTimers.Sweep | extern_lib/udt4/src/queue.cpp:1061-1087 | the sweep ends, no socket left is stale, live ones are all kept and exactly the dead stale ones are dropped |
| Md5.State.Append | extern_lib/udt4/src/md5.cpp:323-358 | counter, digest state and buffer always stand for everything appended so far |
| Md5.State.Count | extern_lib/udt4/src/md5.cpp:333-337 | the two words count the bits modulo 2^64 |
| Md5.State.Finish | extern_lib/udt4/src/md5.cpp:361-381 | the digest is that of the message with the padding and length of sections 3.1 and 3.2 of RFC 1321 |
| Md5.HashParts | extern_lib/udt4/src/md5.cpp:323-381 | however a message is split into appends whose sums with the offset do not overflow, the digest is that of the whole message |
| Md5.CopyStays | extern_lib/udt4/src/md5.cpp:341-343 | the first copy stays within the buffer if and only if the sum does not overflow, and then takes all that fits |
| Md5.CopyOverruns | extern_lib/udt4/src/md5.cpp:341-343 | an example where it does not |
| Md5.ShortPartsFit | extern_lib/udt4/src/md5.cpp:323-358 | appends of up to 2^31 - 64 bytes never overflow |
| Md5.InitBytes | extern_lib/udt4/src/md5.cpp:312-320 | the initial words have the bytes listed in section 3.3 of RFC 1321 |
| Md5.HashReads | extern_lib/udt4/src/md5.cpp:379-380 | the digest is the four words of the final state in order, each with its low-order byte first |
| Md5.FoldNext | extern_lib/udt4/src/md5.cpp:351-353 | the blocks of the message are compressed in order, each into the state after the ones before it |
| Md5.PaddedWhole | extern_lib/udt4/src/md5.cpp:375-376 | padding makes whole blocks, no more than needed, of a one bit and zeros |
| Md5.LengthRoundTrip | extern_lib/udt4/src/md5.cpp:372-374 | the length can be read back from its field |
| JsonSpec.StringBody | src/cJSON.c:155-211 | reading a string never leaves the text, or is reported to run off its end |
| JsonText.ReadString | src/cJSON.c:155-211 | the first pass counts and the second reads what the specification says; what is written fits what was allocated when every u of an escape has its four digits |
| JsonText.ReadEscape | src/cJSON.c:173-206 | the switch over the letter of an escape reads what the specification says |
| JsonText.ParseHex4 | src/cJSON.c:140-151 | four hexadecimal digits, or zero |
| JsonText.EncodeUtf8 | src/cJSON.c:194-203 | the bytes written from the last one back are those of the specification |
| JsonEscapes.Utf8Encodes | src/cJSON.c:194-203 | every code point up to 0x10FFFF becomes a first byte that announces its length and continuation bytes, in the shortest form, and decodes to itself (section 3 of RFC 3629) |
| JsonEscapes.EncodedOnce | src/cJSON.c:194-203 | there is only one such string of bytes |
| JsonEscapes.Hex4Reads | src/cJSON.c:140-151 | four hexadecimal digits in either case are read as the number they write |
| JsonEscapes.Hex4Fails | src/cJSON.c:140-151 | and anything else as zero |
| JsonEscapes.BasicRead | src/cJSON.c:179-203 | the escape of a code point that is no surrogate is read as its bytes |
| JsonEscapes.PairRead | src/cJSON.c:179-203 | the two escapes of a surrogate pair are read as the bytes of the code point they make |
| JsonEscapes.InvalidDropped | src/cJSON.c:182-188 | zero and surrogates without their other half are dropped |
| JsonEscapes.LiteralRead | src/cJSON.c:169-207 | a string literal made of any characters and escapes of section 7 of RFC 8259 is read as the bytes these stand for |
| JsonEscapes.EscapeDenotes | src/cJSON.c:226-243 | what the printer writes for a character stands for that character: a short escape where there is one, digits for other control characters |
| JsonNumbers.NumberRead | src/cJSON.c:96-115 | a text of sign, digits, fraction and exponent is read as the number it writes |
| JsonGrammar.ReadsExactly | src/cJSON.c:257-439 | the parser reads a value from one place of a text to another if and only if the grammar of section 2 of RFC 8259 has that value there, with white space only where it allows it, taking every character up to 32 for white space |
| JsonText.ReadNumber | src/cJSON.c:96-115 | sign, digits, fraction and exponent as the specification reads them |
| JsonText.ReadValue | src/cJSON.c:287-299 | the recursive parser reads what the specification says |
| JsonText.ReadArray | src/cJSON.c:320-345 | the loop over values, with all ways to fail |
| JsonText.ReadObject | src/cJSON.c:406-439 | the loop over named values, with all ways to fail |
| JsonText.WriteChar | src/cJSON.c:229-243 | the switch over a character to be escaped writes what the specification says |
| JsonText.WriteString | src/cJSON.c:215-247 | the loop writes the escaped string, and fills exactly what the first pass made it allocate |
| JsonText.WriteValue | src/cJSON.c:302-317 | the recursive printer writes what the specification says |
| JsonText.WriteArray | src/cJSON.c:348-403 | the loops write the elements with their separators, within the size computed before |
| JsonText.WriteObject | src/cJSON.c:442-505 | the loops write the fields with their separators and indentation, within the size computed before |
| JsonSizes.EscapedExact | src/cJSON.c:220-222 | the first pass of the string printer counts exactly the characters written |
| JsonSizes.ArrayFits | src/cJSON.c:354-400 | an array's print and its terminator fit the size computed from its elements |
| JsonSizes.ObjectFits | src/cJSON.c:446-503 | the same for objects, empty ones included |
| JsonSizes.BodyFits | src/cJSON.c:160-206 | a string parsed is no longer than the first pass counted, when every u of an escape has its four digits |
| JsonRoundTrip.StringRoundTrip | src/cJSON.c:155-247 | every string without a terminator inside survives printing and parsing (section 7 of RFC 8259) |
| JsonRoundTrip.NumberRoundTrip | src/cJSON.c:96-137 | so does every whole number |
| JsonRoundTrip.ItemsParts | src/cJSON.c:391-398 | how the elements of an array are laid out in either print |
| JsonRoundTrip.FieldsParts | src/cJSON.c:490-503 | how the fields of an object are laid out in either print |
| JsonRoundTrip.ParsePrint | src/cJSON.c:155-505 | parsing either print of a tree rebuilds the tree and consumes the whole text |
| JsonMinify.MinifyPrint | src/cJSON.c:581-596 | minifying the formatted print of a tree gives its unformatted print |
| JsonComments.MinifyPieces | src/cJSON.c:581-596 | of a text put together from characters, strings, white space and comments exactly the characters and the strings are left |
| JsonComments.CommentsDoNotMatter | src/cJSON.c:590-591 | a text with comments put in minifies like the text without them |
| JsonComments.ClosesUnlessSlash | src/cJSON.c:591-591 | when a comment that holds no closing mark is taken out whole |
| JsonComments.StarCountsTwice | src/cJSON.c:591-591 | an example where it is not |
| JsonMinify.Minify | src/cJSON.c:581-596 | the in-place loop leaves what the specification says; its write cursor never passes its read cursor |
| JsonMinify.CopyString | src/cJSON.c:592-592 | string literals are kept as they are, escaped quotes included |

## Left out

- SenderHalf.Sender.OnLiteAck: asks for a number not past the next one to send, because the code checks that for full acknowledgements only.
- SenderHalf.Sender.OnNak: asks for words in which every marked one is followed by another, because the code reads that word without looking at the length of the packet.
- SenderSpec.RetransmitKeeps: states it for an infinite time to live, as SenderHalf.Sender.Resend does.
- SenderSpec.RetransmitSends: states it for an infinite time to live, as SenderHalf.Sender.Resend does.
- Connection.Connection.Resend: has an infinite time to live, as SenderHalf.Sender.Resend does.
- Connection.Connection.PackData: has an infinite time to live, as SenderHalf.Sender.Resend does.
- SendBuffer.SndBuffer.ReadAt: leaves out expired messages, as SenderHalf.Sender.Resend does.
- SenderHalf.Sender.Resend: does not model message expiry, type 7 drop requests and `dropMsg`, so a time to live is infinite; the ranges those compute do not match the stated intent.
- SendHeap.SndUList.Update: asks for a free place in the array for a node that is not on the heap, because this path of the program does not grow it.
- ReceiverHalf.Receiver.Read: does not model waiting for data and the error exits of a closed or broken connection.
- Connection.Connection.Send: does not model waiting for room and the error exits of a closed or broken connection.
- Connection.Connection.Read: does not model waiting for data and the error exits of a closed or broken connection.
- ReceiveTimers.Sweep: takes which sockets are alive as fixed for one sweep.
- JsonText.ReadNumber: gives a decimal number exactly, not its rounding to a double.
- JsonText.WriteValue: prints whole numbers of int range only.
- JsonText.ReadString: says nothing of the size for an escape whose u lacks some of its four digits.
- JsonMinify.Minify: asks for a text whose strings and comments are closed; on others the loop of the program runs past the end of the text.
- JsonMinify.CopyString: asks for a closed string, as JsonMinify.Minify does.
- Sockets, threads, locks, condition variables, clocks and polling: each locked operation is one step and time is an input.
- Congestion control and bandwidth estimates: the congestion window is an arbitrary input.
- File transfer through `addBufferFromFile` and `readBufferToFile`: file access.
- The timer of the periodic loss report, which is disabled in the code; the report itself is an event that may happen at any time.
- `CCache`, `CHash`, handshakes, options, socket life cycle and garbage collection.
- The compression function of MD5: a parameter.
- Allocation failure, hooks and the tree editing functions of cJSON.
