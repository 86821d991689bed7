/** CACKWindow: the history of acknowledgements sent and not yet acknowledged. */
module AckHistory {
  import opened Ring
  import opened ReceiverSpec

  class AckWindow {
    const size: int
    const ackSeqNo: array<int>
    const ack: array<int>
    const timeStamp: array<int>
    var head: int
    var tail: int
    // The records from the oldest on, and when they were stored.
    ghost var records: seq<Ack>
    ghost var times: seq<int>

    /** The place i records behind the one at from. */
    function Place(from: int, i: int): int {
      if from + i < size then from + i else from + i - size
    }

    ghost predicate Stands(at: int, a: Ack, t: int)
      reads ackSeqNo, ack, timeStamp
    {
      && 0 <= at < ackSeqNo.Length == ack.Length == timeStamp.Length
      && ackSeqNo[at] == a.ackNo && ack[at] == a.ack && timeStamp[at] == t
    }

    ghost predicate Formed()
      reads this, ackSeqNo, ack, timeStamp
    {
      && size > 1 && ackSeqNo.Length == ack.Length == timeStamp.Length == size
      && ackSeqNo != ack && ack != timeStamp && timeStamp != ackSeqNo
      && 0 <= head < size && 0 <= tail < size
      && |records| == |times| == (if head >= tail then head - tail else head + size - tail)
      && forall i {:trigger records[i]} | 0 <= i < |records| :: Stands(Place(tail, i), records[i], times[i])
    }

    /** The history is well formed; asserting Seen of some number brings in how. */
    ghost predicate Valid()
      reads this, ackSeqNo, ack, timeStamp
    {
      |records| == |times| && forall k {:trigger Seen(k)} | Seen(k) :: Formed()
    }

    ghost predicate Seen(k: int) {
      true
    }

    constructor (size: int)
      requires size > 1
      ensures Valid() && records == [] && this.size == size
      ensures fresh(ackSeqNo) && fresh(ack) && fresh(timeStamp)
    {
      this.size := size;
      ackSeqNo := new int[size];
      ack := new int[size];
      timeStamp := new int[size];
      head, tail, records, times := 0, 0, [], [];
      new;
      ackSeqNo[0] := -1;
    }

    lemma Around(x: int)
      requires 0 <= x < 2 * size
      ensures x % size == if x < size then x else x - size
    {
      DivUnique(x, if x < size then 0 else 1, if x < size then x else x - size, size);
    }

    method Next(x: int) returns (y: int)
      requires 0 <= x < size
      ensures y == if x + 1 == size then 0 else x + 1
    {
      Around(x + 1);
      y := (x + 1) % size;
    }

    /** Records an acknowledgement; when the ring is full the oldest record goes. */
    method Store(seqNo: int, dataAck: int, now: int)
      requires Valid()
      modifies this, ackSeqNo, ack, timeStamp
      ensures Valid() && records == StoreAck(old(records), Ack(seqNo, dataAck), size)
    {
      assert Seen(0);
      Write(seqNo, dataAck, now);
      Advance(seqNo, dataAck, now);
    }

    /** Takes the record written at the head in. */
    method Advance(ghost seqNo: int, ghost dataAck: int, ghost now: int)
      requires Formed() && ackSeqNo[head] == seqNo && ack[head] == dataAck && timeStamp[head] == now
      modifies this
      ensures Formed() && records == StoreAck(old(records), Ack(seqNo, dataAck), size)
    {
      ghost var a, rs, ts, from := Ack(seqNo, dataAck), records, times, tail;
      assert Stands(Place(tail, |rs|), a, now);
      head := Next(head);
      if head == tail {
        tail := Next(tail);
        records, times := (rs + [a])[1..], (ts + [now])[1..];
        forall i | 0 <= i < |records| ensures Stands(Place(tail, i), records[i], times[i]) {
          assert Place(tail, i) == Place(from, i + 1);
          assert i + 1 < |rs| ==> Stands(Place(from, i + 1), rs[i + 1], ts[i + 1]);
        }
      } else {
        records, times := rs + [a], ts + [now];
        forall i | 0 <= i < |records| ensures Stands(Place(tail, i), records[i], times[i]) {
          assert i < |rs| ==> Stands(Place(tail, i), rs[i], ts[i]);
        }
      }
    }

    method Write(seqNo: int, dataAck: int, now: int)
      requires Formed()
      modifies ackSeqNo, ack, timeStamp
      ensures Formed() && ackSeqNo[head] == seqNo && ack[head] == dataAck && timeStamp[head] == now
    {
      forall i | 0 <= i < |records| ensures Place(tail, i) != head {
      }
      ackSeqNo[head] := seqNo;
      ack[head] := dataAck;
      timeStamp[head] := now;
      forall i | 0 <= i < |records| ensures Stands(Place(tail, i), records[i], times[i]) {
        assert old(Stands(Place(tail, i), records[i], times[i]));
      }
    }

    method Reset()
      requires ackSeqNo.Length > 0
      modifies this`head, this`tail, ackSeqNo
      ensures head == tail == 0 && ackSeqNo[..] == old(ackSeqNo[..])[0 := -1]
    {
      tail := 0;
      head := 0;
      ackSeqNo[0] := -1;
    }

    /** What acknowledging the record i comes to: it goes, and so do all older ones. */
    ghost method Forget(at: int, i: int, from: int)
      requires 0 <= i < |records| == |times| && size > 1 && 0 <= from < size && at == Place(from, i)
      requires ackSeqNo.Length == ack.Length == timeStamp.Length == size
      requires ackSeqNo != ack && ack != timeStamp && timeStamp != ackSeqNo
      requires forall j {:trigger records[j]} | i < j < |records| :: Stands(Place(from, j), records[j], times[j])
      requires 0 <= head < size && 0 <= tail < size
      requires i + 1 == |records| ==> head == tail
      requires i + 1 < |records| ==> tail == Place(from, i + 1)
      requires |records| - i - 1 == if head >= tail then head - tail else head + size - tail
      modifies this`records, this`times
      ensures Formed() && records == old(records)[i + 1..]
    {
      ghost var rs, ts := records, times;
      records, times := rs[i + 1..], ts[i + 1..];
      forall k | 0 <= k < |records| ensures Stands(Place(tail, k), records[k], times[k]) {
        assert Stands(Place(from, i + 1 + k), rs[i + 1 + k], ts[i + 1 + k]);
      }
    }

    /** The record i goes while the head has not gone around the end of the arrays. */
    method DropStraight(at: int, ghost i: int)
      requires Formed() && head >= tail && 0 <= i < |records| && at == tail + i
      modifies this, ackSeqNo
      ensures Formed() && records == old(records)[i + 1..]
    {
      ghost var from := tail;
      if at + 1 == head {
        Reset();
      } else {
        tail := Next(at);
      }
      Forget(at, i, from);
    }

    /** The end of the wrapped branch; its test for the head never holds of the place of a record. */
    method MoveTail(at: int)
      requires size > 1 && 0 <= at < size == ackSeqNo.Length
      modifies this`head, this`tail, ackSeqNo
      ensures at != old(head) ==> head == old(head) && tail == Place(at, 1) && ackSeqNo[..] == old(ackSeqNo[..])
    {
      if at == head {
        Reset();
      } else {
        tail := Next(at);
      }
    }

    method DropWrapped(at: int, ghost i: int)
      requires Formed() && head < tail && 0 <= i < |records| && at == Place(tail, i)
      modifies this, ackSeqNo
      ensures Formed() && records == old(records)[i + 1..]
    {
      ghost var from := tail;
      MoveTail(at);
      Forget(at, i, from);
    }

    /** What acknowledge makes of the history. */
    ghost predicate Acknowledged(seqNo: int, now: int, rs: seq<Ack>, ts: seq<int>, rtt: int, dataAck: int)
      requires |rs| == |ts|
      reads this
    {
      var i := Find(rs, seqNo);
      if i == |rs| then rtt == -1 && records == rs
      else rtt == now - ts[i] && dataAck == rs[i].ack && records == rs[i + 1..]
    }

    /** The head has not gone around the end of the arrays: the records lie between tail and head. */
    method AcknowledgeStraight(seqNo: int, now: int) returns (rtt: int, dataAck: int)
      requires Formed() && head >= tail
      modifies this, ackSeqNo
      ensures Formed() && Acknowledged(seqNo, now, old(records), old(times), rtt, dataAck)
    {
      for i := tail to head
        invariant unchanged(this) && unchanged(ackSeqNo) && Formed() && i - tail <= Find(records, seqNo)
      {
        assert Stands(Place(tail, i - tail), records[i - tail], times[i - tail]);
        if seqNo == ackSeqNo[i] {
          FindAt(records, seqNo, i - tail);
          dataAck := ack[i];
          rtt := now - timeStamp[i];
          DropStraight(i, i - tail);
          return;
        }
        FindPast(records, seqNo, i - tail);
      }
      return -1, 0;
    }

    /** The head is behind the tail: the search goes around the end of the arrays. */
    method AcknowledgeWrapped(seqNo: int, now: int) returns (rtt: int, dataAck: int)
      requires Formed() && head < tail
      modifies this, ackSeqNo
      ensures Formed() && Acknowledged(seqNo, now, old(records), old(times), rtt, dataAck)
    {
      for j := tail to head + size
        invariant unchanged(this) && unchanged(ackSeqNo) && Formed() && j - tail <= Find(records, seqNo)
      {
        Around(j);
        assert Stands(Place(tail, j - tail), records[j - tail], times[j - tail]);
        if seqNo == ackSeqNo[j % size] {
          FindAt(records, seqNo, j - tail);
          var at := j % size;
          dataAck := ack[at];
          rtt := now - timeStamp[at];
          DropWrapped(at, j - tail);
          return;
        }
        FindPast(records, seqNo, j - tail);
      }
      return -1, 0;
    }

    /** Looks an acknowledgement up by its number; rtt is -1 when it is not in the history. */
    method Acknowledge(seqNo: int, now: int) returns (rtt: int, dataAck: int)
      requires Valid()
      modifies this, ackSeqNo
      ensures Valid()
      ensures
        var i := Find(old(records), seqNo);
        if i == |old(records)| then rtt == -1 && records == old(records)
        else rtt == now - old(times)[i] && dataAck == old(records)[i].ack && records == old(records)[i + 1..]
    {
      assert Seen(0);
      if head >= tail {
        rtt, dataAck := AcknowledgeStraight(seqNo, now);
      } else {
        rtt, dataAck := AcknowledgeWrapped(seqNo, now);
      }
    }

    lemma {:induction false} FindAt(acks: seq<Ack>, seqNo: int, i: int)
      requires 0 <= i < |acks| && acks[i].ackNo == seqNo && i <= Find(acks, seqNo)
      ensures Find(acks, seqNo) == i
    {
    }

    lemma {:induction false} FindPast(acks: seq<Ack>, seqNo: int, i: int)
      requires 0 <= i < |acks| && acks[i].ackNo != seqNo && i <= Find(acks, seqNo)
      ensures i + 1 <= Find(acks, seqNo)
    {
    }
  }
}
