/** A process's inbox: a ring of message slots with head, tail and count bytes, and the queue it stands for. */
module Inboxes {
  import opened Arith
  import opened Bytes

  const MAX_MSG_SIZE := 256

  datatype Message = Message(sender: nat, receiver: nat, data: seq<byte>, read: bool)

  /** The ring.  Its capacity is at most 255, so that the three counters are bytes. */
  datatype Inbox = Inbox(messages: seq<Message>, head: byte, tail: byte, count: byte)

  /** head is where the next message goes, tail where the oldest one is, and the counters agree. */
  ghost predicate Ring(q: Inbox) {
    && 0 < |q.messages| < 256
    && q.head < |q.messages| && q.tail < |q.messages| && q.count <= |q.messages|
    && q.head == Slot(q, q.count)
  }

  /** The ring position of the i-th pending message. */
  function Slot(q: Inbox, i: nat): (k: nat)
    requires |q.messages| > 0
    ensures k < |q.messages|
  {
    (q.tail + i) % |q.messages|
  }

  /** The pending messages, oldest first. */
  ghost function Pending(q: Inbox): (s: seq<Message>)
    requires |q.messages| > 0
    ensures |s| == q.count
  {
    seq(q.count, i requires 0 <= i < q.count => q.messages[Slot(q, i)])
  }

  predicate Full(q: Inbox) {
    q.count >= |q.messages|
  }

  /** ipcEnqueueMessage: a full ring is left as it is. */
  function Enqueue(q: Inbox, m: Message): Inbox
    requires 0 < |q.messages| < 256 && q.head < |q.messages|
  {
    if Full(q) then q
    else Inbox(q.messages[q.head := m], (q.head + 1) % |q.messages|, q.tail, q.count + 1)
  }

  /** ipcDequeueMessage. */
  function Dequeue(q: Inbox): (r: (Inbox, Option<Message>))
    requires 0 < |q.messages| < 256 && q.tail < |q.messages|
  {
    if q.count == 0 then (q, None)
    else (Inbox(q.messages, q.head, (q.tail + 1) % |q.messages|, q.count - 1), Some(q.messages[q.tail]))
  }

  /** Adding one to a position below n, around the ring. */
  lemma Around(a: nat, n: nat)
    requires a < n
    ensures (a + 1) % n == if a + 1 == n then 0 else a + 1
    ensures a % n == a && n % n == 0
  {
  }

  lemma SlotIs(q: Inbox, i: nat)
    requires q.tail < |q.messages| && i <= |q.messages|
    ensures Slot(q, i) == if q.tail + i < |q.messages| then q.tail + i else q.tail + i - |q.messages|
  {
    var x, n := q.tail + i, |q.messages|;
    if x < n {
      DivModOf(x, n, 0, x);
    } else {
      DivModOf(x, n, 1, x - n);
    }
  }

  /** Enqueueing appends, unless the ring is full. */
  lemma EnqueueAppends(q: Inbox, m: Message)
    requires Ring(q)
    ensures var r := Enqueue(q, m);
            && Ring(r) && |r.messages| == |q.messages|
            && Pending(r) == if Full(q) then Pending(q) else Pending(q) + [m]
  {
    if !Full(q) {
      var r := Enqueue(q, m);
      Around(q.head, |q.messages|);
      SlotIs(q, q.count);
      SlotIs(r, r.count);
      forall i | 0 <= i < r.count ensures Pending(r)[i] == (Pending(q) + [m])[i] {
        SlotIs(q, i);
        SlotIs(r, i);
      }
    }
  }

  /** Dequeueing takes the oldest message off, if there is one. */
  lemma DequeueTakesFirst(q: Inbox)
    requires Ring(q)
    ensures var (r, m) := Dequeue(q);
            && Ring(r) && |r.messages| == |q.messages|
            && (m == None <==> Pending(q) == [])
            && (m.Some? ==> Pending(q) == [m.value] + Pending(r))
  {
    if q.count > 0 {
      var r := Dequeue(q).0;
      Around(q.tail, |q.messages|);
      SlotIs(q, 0);
      SlotIs(q, q.count);
      SlotIs(r, r.count);
      forall i | 0 <= i < q.count ensures Pending(q)[i] == ([q.messages[q.tail]] + Pending(r))[i] {
        SlotIs(q, i);
        if i > 0 {
          SlotIs(r, i - 1);
        }
      }
    }
  }

  predicate FromSender(m: Message, sender: Option<nat>) {
    sender.None? || m.sender == sender.value
  }

  /** No pending message is marked read; nothing in the kernel ever marks one. */
  ghost predicate Unmarked(q: Inbox)
    requires |q.messages| > 0
  {
    forall m :: m in Pending(q) ==> !m.read
  }

  lemma StillUnmarked(q: Inbox, m: Message)
    requires Ring(q) && Unmarked(q) && !m.read
    ensures |Enqueue(q, m).messages| > 0 && Unmarked(Enqueue(q, m))
    ensures |Dequeue(q).0.messages| > 0 && Unmarked(Dequeue(q).0)
  {
    hide Pending, Ring;
    EnqueueAppends(q, m);
    DequeueTakesFirst(q);
    RestOf(Pending(q), Dequeue(q));
  }

  /** What is left after a dequeue was there before. */
  lemma RestOf(s: seq<Message>, r: (Inbox, Option<Message>))
    requires |r.0.messages| > 0 && (r.1.Some? ==> s == [r.1.value] + Pending(r.0))
    ensures r.1.Some? ==> forall m :: m in Pending(r.0) ==> m in s
  {
  }

  /** UNREAD: is a message from this sender, or from any, pending and not marked read? */
  method Unread(q: Inbox, sender: Option<nat>) returns (r: bool)
    requires Ring(q)
    ensures r <==> exists m :: m in Pending(q) && FromSender(m, sender) && !m.read
  {
    var i := 0;
    while i < q.count
      invariant 0 <= i <= q.count
      invariant forall j :: 0 <= j < i ==> !(FromSender(Pending(q)[j], sender) && !Pending(q)[j].read)
    {
      var m := q.messages[(q.tail + i) % |q.messages|];
      assert m == Pending(q)[i];
      if FromSender(m, sender) && !m.read {
        return true;
      }
      i := i + 1;
    }
    return false;
  }
}
