/** One open POSIX message queue: a priority-sorted linked list with a tail pointer
    (mq_send and mq_receive of src/kernel/posix_ipc.cpp). */
module MessageQueue {
  import opened Collections
  import opened Bytes

  const MAX_MESSAGES: nat := 64
  const MAX_MSG_SIZE: nat := 256

  /** struct message; only `next` changes after it has been filled in. */
  class Message {
    const data: seq<Byte>
    const priority: nat
    var next: Message?

    constructor (data: seq<Byte>, priority: nat)
      ensures this.data == data && this.priority == priority && next == null
    {
      this.data, this.priority, next := data, priority, null;
    }
  }

  /** A message as sent: the stamp is the number of messages sent before it. */
  datatype Item = Item(data: seq<Byte>, priority: nat, stamp: nat)

  // ---- the stable priority queue ----

  /** Goes before another: a higher priority, or the same priority and sent earlier. */
  predicate Before(a: Item, b: Item) {
    a.priority > b.priority || (a.priority == b.priority && a.stamp < b.stamp)
  }

  ghost predicate Sorted(q: seq<Item>) {
    forall i, j :: 0 <= i < j < |q| ==> Before(q[i], q[j])
  }

  /** Where mq_send puts a message: behind all of the same or a higher priority. */
  function Position(q: seq<Item>, priority: nat): (k: nat)
    ensures k <= |q|
    ensures forall i :: 0 <= i < k ==> q[i].priority >= priority
    ensures k < |q| ==> q[k].priority < priority
  {
    if q == [] || q[0].priority < priority then 0 else 1 + Position(q[1..], priority)
  }

  lemma SortedInsert(q: seq<Item>, k: nat, x: Item)
    requires Sorted(q) && k <= |q|
    requires forall i :: 0 <= i < k ==> Before(q[i], x)
    requires forall i :: k <= i < |q| ==> Before(x, q[i])
    ensures Sorted(Insert(q, k, x))
  {}

  /** A later message goes to its place in the sorted order. */
  lemma InsertSorted(q: seq<Item>, x: Item)
    requires Sorted(q) && forall i :: 0 <= i < |q| ==> q[i].stamp < x.stamp
    ensures Sorted(Insert(q, Position(q, x.priority), x))
  {
    var k := Position(q, x.priority);
    forall i | k <= i < |q| ensures Before(x, q[i]) {
      assert i > k ==> Before(q[k], q[i]);
    }
    SortedInsert(q, k, x);
  }

  lemma InsertMembers<T>(q: seq<T>, k: nat, x: T)
    requires k <= |q|
    ensures forall y :: y in Insert(q, k, x) ==> y in q || y == x
  {}

  /** How often an item occurs. */
  ghost function Count(q: seq<Item>, y: Item): nat {
    if q == [] then 0 else Count(q[..|q| - 1], y) + if q[|q| - 1] == y then 1 else 0
  }

  lemma {:induction false} CountAll(q: seq<Item>, y: Item)
    ensures Count(q, y) == multiset(q)[y]
  {
    if q != [] {
      CountAll(q[..|q| - 1], y);
      assert q == q[..|q| - 1] + [q[|q| - 1]];
    }
  }

  lemma CountInsert(q: seq<Item>, k: nat, x: Item, y: Item)
    requires k <= |q|
    ensures Count(Insert(q, k, x), y) == Count(q, y) + if x == y then 1 else 0
  {
    CountAll(Insert(q, k, x), y);
    CountAll(q, y);
    assert q == q[..k] + q[k..];
  }

  // ---- the linked list ----

  function Next(list: seq<Message>, i: nat): Message?
    requires i < |list|
  {
    if i + 1 < |list| then list[i + 1] else null
  }

  ghost predicate Linked(list: seq<Message>)
    reads list`next
  {
    && Distinct(list)
    && (forall i {:trigger list[i].next} :: 0 <= i < |list| ==> list[i].next == Next(list, i))
  }

  ghost predicate Holds(list: seq<Message>, items: seq<Item>) {
    && |list| == |items|
    && forall i :: 0 <= i < |list| ==> list[i].data == items[i].data && list[i].priority == items[i].priority
  }

  lemma InsertHolds(list: seq<Message>, items: seq<Item>, k: nat, m: Message, x: Item)
    requires Holds(list, items) && k <= |list| && m.data == x.data && m.priority == x.priority
    ensures Holds(Insert(list, k, m), Insert(items, k, x))
  {}

  lemma InsertLinked(list: seq<Message>, k: nat, m: Message)
    requires k <= |list| && m !in list
    requires Distinct(list)
    requires m.next == if k < |list| then list[k] else null
    requires forall i {:trigger list[i].next} :: 0 <= i < |list| ==>
               list[i].next == if i == k - 1 then m else Next(list, i)
    ensures Linked(Insert(list, k, m))
  {}

  lemma InsertEnds<T>(list: seq<T>, k: nat, m: T)
    requires k <= |list|
    ensures var r := Insert(list, k, m);
            && |r| == |list| + 1
            && r[0] == (if k == 0 then m else list[0])
            && r[|r| - 1] == if k == |list| then m else list[|list| - 1]
  {}

  class Queue {
    var head: Message?
    var tail: Message?
    var curmsgs: nat
    ghost var list: seq<Message>
    ghost var items: seq<Item>
    /** Everything sent and received so far. */
    ghost var sent: seq<Item>
    ghost var received: seq<Item>

    /** The list from head to tail. */
    ghost predicate ListOk()
      reads `head, `tail, `curmsgs, `list, list`next
    {
      && Linked(list)
      && head == (if list == [] then null else list[0])
      && tail == (if list == [] then null else list[|list| - 1])
      && curmsgs == |list|
    }

    ghost predicate Valid()
      reads this, list
    {
      && ListOk() && curmsgs <= MAX_MESSAGES
      && Recorded(list, items, sent, received)
    }

    /** mq_open of a new queue. */
    constructor ()
      ensures Valid() && items == [] && list == [] && sent == [] && received == []
    {
      head, tail, curmsgs := null, null, 0;
      list, items, sent, received := [], [], [], [];
    }

    /** The search of mq_send: the node to insert behind, or null for the front. */
    method Predecessor(priority: nat) returns (cur: Message?)
      requires Valid()
      ensures cur == if Position(items, priority) == 0 then null else list[Position(items, priority) - 1]
    {
      if head == null || priority > head.priority { return null; }
      ghost var i, k := 0, Position(items, priority);
      cur := head;
      while cur.next != null && cur.next.priority >= priority
        invariant 0 <= i < k && cur == list[i]
        decreases |list| - i
      {
        cur := cur.next;
        i := i + 1;
      }
    }

    /** The relinking of mq_send: behind `cur`, or at the front. The history is the caller's. */
    method LinkIn(msg: Message, cur: Message?, ghost k: nat, ghost items': seq<Item>, ghost sent': seq<Item>)
      requires ListOk() && msg !in list && msg.next == null
      requires k <= |list| && cur == if k == 0 then null else list[k - 1]
      modifies `head, `tail, `curmsgs, `list, `items, `sent, msg, list
      ensures ListOk() && list == Insert(old(list), k, msg) && items == items' && sent == sent'
    {
      if cur == null {
        msg.next := head;
        head := msg;
        if tail == null { tail := msg; }
      } else {
        assert list[k - 1].next == Next(list, k - 1);
        msg.next := cur.next;
        cur.next := msg;
        if msg.next == null { tail := msg; }
      }
      curmsgs := curmsgs + 1;
      InsertLinked(list, k, msg);
      InsertEnds(list, k, msg);
      list, items, sent := Insert(list, k, msg), items', sent';
    }

    /** mq_send; `haveMemory` says whether kmalloc succeeds. */
    method Send(data: seq<Byte>, priority: nat, haveMemory: bool) returns (r: int)
      requires Valid()
      modifies this, list
      ensures Valid() && received == old(received)
      ensures r == (if |data| > MAX_MSG_SIZE || old(curmsgs) == MAX_MESSAGES || !haveMemory then -1 else 0)
      ensures r == -1 ==> items == old(items) && sent == old(sent)
      ensures r == 0 ==>
                var x := Item(data, priority, |old(sent)|);
                sent == old(sent) + [x] && items == Insert(old(items), Position(old(items), priority), x)
      ensures r == -1 ==> list == old(list)
      ensures r == 0 ==> |list| == old(|list|) + 1
      ensures forall i :: 0 <= i < |list| ==> list[i] in old(list) || fresh(list[i])
    {
      if |data| > MAX_MSG_SIZE { return -1; }
      if curmsgs >= MAX_MESSAGES { return -1; }
      if !haveMemory { return -1; }
      var msg := new Message(data, priority);
      Enqueue(msg);
      InsertMembers(old(list), Position(old(items), priority), msg);
      r := 0;
    }

    /** A filled-in message goes to its place. */
    method Enqueue(msg: Message)
      requires Valid() && curmsgs < MAX_MESSAGES && msg !in list && msg.next == null
      modifies this, msg, list
      ensures Valid() && received == old(received)
      ensures var x := Item(msg.data, msg.priority, |old(sent)|);
              sent == old(sent) + [x] && items == Insert(old(items), Position(old(items), msg.priority), x)
      ensures list == Insert(old(list), Position(old(items), msg.priority), msg)
    {
      ghost var x, k := Item(msg.data, msg.priority, |sent|), Position(items, msg.priority);
      RecordedSend(list, items, sent, received, msg, x);
      var cur := Predecessor(msg.priority);
      LinkIn(msg, cur, k, Insert(items, k, x), sent + [x]);
    }

    /** mq_receive: the first message of the list, cut to the buffer; its full length, or -1. */
    method Receive(buffer: array<Byte>) returns (r: int, priority: nat)
      requires Valid()
      modifies this, buffer
      ensures Valid() && sent == old(sent)
      ensures r == -1 <==> old(items) == []
      ensures r == -1 ==> items == [] && received == old(received) && buffer[..] == old(buffer[..])
      ensures r != -1 ==>
                var x := old(items)[0];
                && r == |x.data| && priority == x.priority
                && buffer[..] == x.data[..Least(r, buffer.Length)] + old(buffer[..])[Least(r, buffer.Length)..]
                && received == old(received) + [x] && items == old(items)[1..]
      ensures list == if r == -1 then old(list) else old(list)[1..]
      // The oldest message of the highest pending priority.
      ensures r != -1 ==> forall y :: y in items ==> Before(old(items)[0], y)
    {
      if head == null { return -1, 0; }
      var msg := head;
      HistoryReceive(items, sent, received);
      Unlink();
      received := received + [items[0]];
      items := items[1..];
      var copyLen := Least(|msg.data|, buffer.Length);
      CopyTo(buffer, 0, msg.data[..copyLen]);
      r, priority := |msg.data|, msg.priority;
    }

    /** Take the first message off the list. */
    method Unlink()
      requires ListOk() && list != []
      modifies `head, `tail, `curmsgs, `list
      ensures ListOk() && list == old(list)[1..]
    {
      assert list[0].next == Next(list, 0);
      head := head.next;
      if head == null { tail := null; }
      curmsgs := curmsgs - 1;
      TailLinked(list);
      list := list[1..];
    }
  }

  /** A client: of two messages the more urgent one goes first, though it is sent last. */
  method TwoQueued(a: seq<Byte>, b: seq<Byte>) returns (queue: Queue)
    requires |a| <= MAX_MSG_SIZE && |b| <= MAX_MSG_SIZE
    ensures fresh(queue) && queue.Valid() && forall i :: 0 <= i < |queue.list| ==> fresh(queue.list[i])
    ensures queue.items == [Item(b, 2, 1), Item(a, 1, 0)] && |queue.sent| == 2
  {
    queue := new Queue();
    var r := queue.Send(a, 1, true);
    assert r == 0 && queue.items == [Item(a, 1, 0)];
    r := queue.Send(b, 2, true);
    assert r == 0;
  }

  /** It is received first, and the other one is still pending when a third is sent. */
  method UrgentFirst(a: seq<Byte>, b: seq<Byte>, c: seq<Byte>, buffer: array<Byte>)
    returns (queue: Queue, len: int, priority: nat)
    requires |a| <= MAX_MSG_SIZE && |b| <= MAX_MSG_SIZE && |c| <= MAX_MSG_SIZE
    modifies buffer
    ensures queue.Valid() && len == |b| && priority == 2
    ensures queue.items == [Item(a, 1, 0), Item(c, 1, 2)]
  {
    queue := TwoQueued(a, b);
    len, priority := queue.Receive(buffer);
    assert queue.items == [Item(a, 1, 0)];
    var sent := queue.Send(c, 1, true);
  }

  lemma TailLinked(list: seq<Message>)
    requires Linked(list) && list != []
    ensures Linked(list[1..])
  {}

  /** What was sent is what has been received and what is pending; stamps are positions in the
      order of sending. */
  ghost predicate History(items: seq<Item>, sent: seq<Item>, received: seq<Item>) {
    && Conserved(items, sent, received)
    && (forall i :: 0 <= i < |sent| ==> sent[i].stamp == i)
    && (forall i :: 0 <= i < |items| ==> items[i].stamp < |sent|)
  }

  ghost predicate Conserved(items: seq<Item>, sent: seq<Item>, received: seq<Item>) {
    forall y {:trigger Count(sent, y)} :: Count(sent, y) == Count(received, y) + Count(items, y)
  }

  lemma ConservedSend(items: seq<Item>, sent: seq<Item>, received: seq<Item>, k: nat, x: Item)
    requires Conserved(items, sent, received) && k <= |items|
    ensures Conserved(Insert(items, k, x), sent + [x], received)
  {
    assert Insert(sent, |sent|, x) == sent + [x];
    forall y ensures Count(sent + [x], y) == Count(received, y) + Count(Insert(items, k, x), y) {
      CountInsert(items, k, x, y);
      CountInsert(sent, |sent|, x, y);
    }
  }

  lemma ConservedReceive(items: seq<Item>, sent: seq<Item>, received: seq<Item>)
    requires Conserved(items, sent, received) && items != []
    ensures Conserved(items[1..], sent, received + [items[0]])
  {
    assert Insert(items[1..], 0, items[0]) == items;
    assert Insert(received, |received|, items[0]) == received + [items[0]];
    forall y ensures Count(sent, y) == Count(received + [items[0]], y) + Count(items[1..], y) {
      CountInsert(items[1..], 0, items[0], y);
      CountInsert(received, |received|, items[0], y);
    }
  }

  lemma SentIsReceivedOrPending(items: seq<Item>, sent: seq<Item>, received: seq<Item>)
    requires History(items, sent, received)
    ensures multiset(sent) == multiset(received) + multiset(items)
  {
    forall y ensures multiset(sent)[y] == (multiset(received) + multiset(items))[y] {
      CountAll(sent, y);
      CountAll(received, y);
      CountAll(items, y);
    }
  }

  lemma HistorySend(items: seq<Item>, sent: seq<Item>, received: seq<Item>, x: Item)
    requires History(items, sent, received) && x.stamp == |sent|
    ensures History(Insert(items, Position(items, x.priority), x), sent + [x], received)
  {
    ConservedSend(items, sent, received, Position(items, x.priority), x);
  }

  lemma HistoryReceive(items: seq<Item>, sent: seq<Item>, received: seq<Item>)
    requires History(items, sent, received) && items != []
    ensures History(items[1..], sent, received + [items[0]])
  {
    ConservedReceive(items, sent, received);
  }

  /** The nodes hold the pending messages, in order, and nothing is lost. */
  ghost predicate Recorded(list: seq<Message>, items: seq<Item>, sent: seq<Item>, received: seq<Item>) {
    Holds(list, items) && Sorted(items) && History(items, sent, received)
  }

  lemma RecordedSend(list: seq<Message>, items: seq<Item>, sent: seq<Item>, received: seq<Item>, msg: Message, x: Item)
    requires Recorded(list, items, sent, received) && x == Item(msg.data, msg.priority, |sent|)
    ensures var k := Position(items, x.priority);
            Recorded(Insert(list, k, msg), Insert(items, k, x), sent + [x], received)
  {
    InsertHolds(list, items, Position(items, x.priority), msg, x);
    InsertSorted(items, x);
    HistorySend(items, sent, received, x);
  }
}
