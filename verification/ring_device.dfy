/**
  The wraparound chat device: `open` registers the calling process, `write`
  routes a payload and overwrites the slot at `tail`, and `read` visits the
  one slot at the caller's cursor. The semaphore version and the spinlock
  version of the driver run the same steps; each operation is one atomic
  step on an immutable queue.

  The read side looks the caller up as `pid - 1` and the write side records
  `pid - 1` as sender, while `open` registers `pid` itself: the clients open
  the device from their main thread and read from a second thread whose
  kernel pid is, by their assumption, one more.
 */
module RingDevice {
  import opened CString
  import opened Decimal
  import opened Errno
  import opened AtPrefix
  import opened Ring
  import opened ChatCodes

  const USERS_MAX_NUM: nat := 6

  ghost predicate Valid(q: Queue)
  {
    WellFormed(q, USERS_MAX_NUM)
  }

  /** A return value and the queue after the call. */
  datatype Reply = Reply(ret: int, queue: Queue)

  /** A `read`'s return value, the bytes copied to the caller's buffer and
      the queue after the call. */
  datatype ReadReply = ReadReply(ret: int, data: seq<char>, queue: Queue)

  /** `ch_device_init`: no user and `tail == 0`; the slots hold whatever the
      allocator left in them. */
  function Init(slots: seq<Message>): (q: Queue)
    requires |slots| == MAX_MSG_COUNT
    requires forall i :: 0 <= i < |slots| ==> |slots[i].text| == MAX_MSG_LEN
    ensures Valid(q) && q.tail == 0 && q.users == [] && q.messages == slots
  {
    Queue(slots, 0, [])
  }

  /** `ch_device_open`: registers `pid` with its cursor at slot 0 and its
      `count` field set to `tail`. Duplicates are not checked. */
  function Open(q: Queue, pid: int): (r: Reply)
    requires Valid(q)
    ensures Valid(r.queue)
    ensures r.queue.messages == q.messages && r.queue.tail == q.tail
    ensures |q.users| >= USERS_MAX_NUM ==> r == Reply(-ENOMEM, q)
    ensures |q.users| < USERS_MAX_NUM ==>
              && r.ret == 0
              && |r.queue.users| == |q.users| + 1
              && r.queue.users[..|q.users|] == q.users
              && r.queue.users[|q.users|] == User(pid, 0, q.tail)
  {
    if |q.users| >= USERS_MAX_NUM then Reply(-ENOMEM, q)
    else Reply(0, q.(users := q.users + [User(pid, 0, q.tail)]))
  }

  /** A newly opened reader starts at slot 0, so everything written since the
      device was loaded (up to wraparound) is pending for it. */
  lemma OpenPendsHistory(q: Queue, pid: int)
    requires Valid(q) && |q.users| < USERS_MAX_NUM
    ensures Pending(Open(q, pid).queue, |q.users|) == q.tail
  {
  }

  /** A second registration of a pid is shadowed: the lookup keeps finding
      the first entry, so the new cursor is never used. */
  lemma OpenDuplicateShadowed(q: Queue, pid: int)
    requires Valid(q) && |q.users| < USERS_MAX_NUM && Find(q, pid) >= 0
    ensures Find(Open(q, pid).queue, pid) == Find(q, pid)
  {
    var q' := Open(q, pid).queue;
    var u := Find(q, pid);
    assert q'.users[u] == q.users[u];
  }

  /** As written, registration replays history: with `tail > 0`, the first
      read of a newly opened process visits slot 0, a slot written before it
      registered, and delivers it when it is a broadcast or for that pid. */
  lemma OpenReplaysHistory(q: Queue, pid: int, size: nat)
    requires Valid(q) && |q.users| < USERS_MAX_NUM && q.tail > 0 && Find(q, pid) == -1
    ensures var o := Open(q, pid).queue;
            var r := Read(o, pid + 1, size);
            && r.queue.users[|q.users|].head == 1
            && (Deliverable(q.messages[0], pid) ==>
                  r.data == q.messages[0].text[..if size < MAX_MSG_LEN then size else MAX_MSG_LEN])
  {
    var o := Open(q, pid).queue;
    assert Find(o, pid) == |q.users|;
    OpenPendsHistory(q, pid);
  }

  /** Registration as intended: the new cursor starts at `tail`, so the
      reader sees only messages written after it registered. */
  function OpenAtTail(q: Queue, pid: int): (r: Reply)
    requires Valid(q)
    ensures Valid(r.queue)
    ensures r.queue.messages == q.messages && r.queue.tail == q.tail
    ensures |q.users| >= USERS_MAX_NUM ==> r == Reply(-ENOMEM, q)
    ensures |q.users| < USERS_MAX_NUM ==>
              && r.ret == 0
              && |r.queue.users| == |q.users| + 1
              && r.queue.users[..|q.users|] == q.users
              && r.queue.users[|q.users|].pid == pid
              && Pending(r.queue, |q.users|) == 0
  {
    if |q.users| >= USERS_MAX_NUM then Reply(-ENOMEM, q)
    else Reply(0, q.(users := q.users + [User(pid, q.tail, 0)]))
  }

  /** With the intended registration a new reader gets nothing from the
      history: its first read before any write returns 0. */
  lemma OpenAtTailSkipsHistory(q: Queue, pid: int)
    requires Valid(q) && |q.users| < USERS_MAX_NUM && Find(q, pid) == -1
    ensures var o := OpenAtTail(q, pid).queue;
            && Find(o, pid) == |q.users|
            && o.users[|q.users|].head == o.tail
            && Read(o, pid + 1, MAX_MSG_LEN).ret == 0
  {
    OpenAtTailFinds(q, pid);
    assert Pending(OpenAtTail(q, pid).queue, |q.users|) == 0;
  }

  lemma OpenAtTailFinds(q: Queue, pid: int)
    requires Valid(q) && |q.users| < USERS_MAX_NUM && Find(q, pid) == -1
    ensures var o := OpenAtTail(q, pid).queue;
            Find(o, pid) == |q.users| && o.users[|q.users|].head == o.tail
  {
    var o := OpenAtTail(q, pid).queue;
    var u := |q.users|;
    assert o.users[..u] == q.users;
    assert forall i :: 0 <= i < u ==> o.users[i].pid != pid by {
      forall i | 0 <= i < u
        ensures o.users[i].pid != pid
      {
        assert o.users[i] == o.users[..u][i];
      }
    }
  }

  /** With the intended registration the first message written after a
      reader registered is the first one it visits. */
  lemma OpenAtTailSeesNext(q: Queue, reader: int, writer: int, buf: seq<char>, size: nat, stale: seq<char>)
    requires Valid(q) && |q.users| < USERS_MAX_NUM && Find(q, reader - 1) == -1
    ensures var o := OpenAtTail(q, reader - 1).queue;
            var w := Write(o, writer, buf, size, stale);
            var m := w.queue.messages[q.tail];
            w.ret >= 0 ==>
              && (Deliverable(m, reader - 1) ==> Read(w.queue, reader, MAX_MSG_LEN).data == m.text)
              && (!Deliverable(m, reader - 1) ==> Read(w.queue, reader, MAX_MSG_LEN).ret == 0)
  {
    SeesNextDelivered(q, reader, writer, buf, size, stale);
    SeesNextSkipped(q, reader, writer, buf, size, stale);
  }

  lemma SeesNextDelivered(q: Queue, reader: int, writer: int, buf: seq<char>, size: nat, stale: seq<char>)
    requires Valid(q) && |q.users| < USERS_MAX_NUM && Find(q, reader - 1) == -1
    ensures var w := Write(OpenAtTail(q, reader - 1).queue, writer, buf, size, stale);
            var m := w.queue.messages[q.tail];
            w.ret >= 0 && Deliverable(m, reader - 1) ==> Read(w.queue, reader, MAX_MSG_LEN).data == m.text
  {
    var w := Write(OpenAtTail(q, reader - 1).queue, writer, buf, size, stale);
    WriteAfterOpen(q, reader, writer, buf, size, stale);
    if w.ret >= 0 {
      SeesNextAfter(q, reader, w.queue);
    }
  }

  lemma SeesNextSkipped(q: Queue, reader: int, writer: int, buf: seq<char>, size: nat, stale: seq<char>)
    requires Valid(q) && |q.users| < USERS_MAX_NUM && Find(q, reader - 1) == -1
    ensures var w := Write(OpenAtTail(q, reader - 1).queue, writer, buf, size, stale);
            var m := w.queue.messages[q.tail];
            w.ret >= 0 && !Deliverable(m, reader - 1) ==> Read(w.queue, reader, MAX_MSG_LEN).ret == 0
  {
    var w := Write(OpenAtTail(q, reader - 1).queue, writer, buf, size, stale);
    WriteAfterOpen(q, reader, writer, buf, size, stale);
    if w.ret >= 0 {
      SeesNextAfter(q, reader, w.queue);
    }
  }

  lemma WriteAfterOpen(q: Queue, reader: int, writer: int, buf: seq<char>, size: nat, stale: seq<char>)
    requires Valid(q) && |q.users| < USERS_MAX_NUM
    ensures var o := OpenAtTail(q, reader - 1).queue;
            var w := Write(o, writer, buf, size, stale).queue;
            Valid(w) && w.users == o.users
            && (Write(o, writer, buf, size, stale).ret >= 0 ==> w.tail == (q.tail + 1) % MAX_MSG_COUNT)
  {
  }

  lemma SeesNextAfter(q: Queue, reader: int, w: Queue)
    requires Valid(q) && |q.users| < USERS_MAX_NUM && Find(q, reader - 1) == -1
    requires Valid(w) && w.users == OpenAtTail(q, reader - 1).queue.users && w.tail == (q.tail + 1) % MAX_MSG_COUNT
    ensures var m := w.messages[q.tail];
            && (Deliverable(m, reader - 1) ==> Read(w, reader, MAX_MSG_LEN).data == m.text)
            && (!Deliverable(m, reader - 1) ==> Read(w, reader, MAX_MSG_LEN).ret == 0)
  {
    OpenAtTailFinds(q, reader - 1);
    ReadAfterOneWrite(OpenAtTail(q, reader - 1).queue, w, reader);
  }

  /** `ch_device_read` by the process `caller`: looks up `caller - 1`;
      an unregistered caller gets 0 and changes nothing. */
  function Read(q: Queue, caller: int, size: nat): (r: ReadReply)
    requires Valid(q)
    ensures Valid(r.queue)
    ensures r.queue.messages == q.messages && r.queue.tail == q.tail
    ensures |r.queue.users| == |q.users|
    ensures r.ret >= 0 && |r.data| == r.ret
    ensures Find(q, caller - 1) == -1 ==> r == ReadReply(0, [], q)
    ensures Find(q, caller - 1) >= 0 ==> r == Visit(q, Find(q, caller - 1), caller - 1, size)
  {
    var pid := caller - 1;
    var u := Find(q, pid);
    if u < 0 then ReadReply(0, [], q) else Visit(q, u, pid, size)
  }

  /** The registered half of `ch_device_read` for table entry `u` and
      lookup pid `pid`: records the pending distance in `count`; with
      nothing pending it returns 0 and leaves the cursor where it is,
      otherwise it visits one slot (`Step`). */
  function Visit(q: Queue, u: nat, pid: int, size: nat): (r: ReadReply)
    requires Valid(q) && u < |q.users|
    ensures Valid(r.queue)
    ensures r.queue.messages == q.messages && r.queue.tail == q.tail
    ensures |r.queue.users| == |q.users|
    ensures r.ret >= 0 && |r.data| == r.ret
    ensures forall i :: 0 <= i < |q.users| && i != u ==> r.queue.users[i] == q.users[i]
    ensures r.queue.users[u].pid == q.users[u].pid
    ensures r.queue.users[u].count == Pending(q, u)
    ensures Pending(q, u) == 0 ==> r.ret == 0 && r.data == [] && r.queue.users[u].head == q.users[u].head
    ensures Pending(q, u) > 0 ==> r == Step(q, u, pid, size)
  {
    if Pending(q, u) == 0 then ReadReply(0, [], SetCursor(q, u, q.users[u].head, 0))
    else Step(q, u, pid, size)
  }

  /** One visit with something pending: `head` moves on by one slot whether
      or not that slot is for `pid`, so one fewer slot is pending; a slot
      for `pid` copies `min(size, 256)` bytes of its content array. */
  function Step(q: Queue, u: nat, pid: int, size: nat): (r: ReadReply)
    requires Valid(q) && u < |q.users| && Pending(q, u) > 0
    ensures Valid(r.queue)
    ensures r.queue.messages == q.messages && r.queue.tail == q.tail
    ensures |r.queue.users| == |q.users|
    ensures r.ret >= 0 && |r.data| == r.ret
    ensures forall i :: 0 <= i < |q.users| && i != u ==> r.queue.users[i] == q.users[i]
    ensures r.queue.users[u] == User(q.users[u].pid, (q.users[u].head + 1) % MAX_MSG_COUNT, Pending(q, u))
    ensures Pending(r.queue, u) == Pending(q, u) - 1
    ensures var m := q.messages[q.users[u].head];
            && (Deliverable(m, pid) ==>
                  && r.ret == (if size < MAX_MSG_LEN then size else MAX_MSG_LEN)
                  && r.data == m.text[..r.ret])
            && (!Deliverable(m, pid) ==> r.ret == 0 && r.data == [])
  {
    var user := q.users[u];
    var m := q.messages[user.head % MAX_MSG_COUNT];
    var q2 := SetCursor(q, u, (user.head + 1) % MAX_MSG_COUNT, Pending(q, u));
    Unstep(user.head, q.tail);
    if Deliverable(m, pid) then
      var n := if size < MAX_MSG_LEN then size else MAX_MSG_LEN;
      ReadReply(n, m.text[..n], q2)
    else ReadReply(0, [], q2)
  }

  lemma Unstep(head: int, tail: int)
    requires 0 <= head < MAX_MSG_COUNT && 0 <= tail < MAX_MSG_COUNT && head != tail
    ensures (tail - (head + 1) % MAX_MSG_COUNT + MAX_MSG_COUNT) % MAX_MSG_COUNT
         == (tail - head + MAX_MSG_COUNT) % MAX_MSG_COUNT - 1
  {
  }

  /** `ch_device_write` of `size` bytes from the caller's buffer `buf` (its
      readable bytes; fewer than the copy needs is a fault). `stale` stands
      for the memory past the terminator that a payload ending right after
      its `@pid` pulls in. */
  function Write(q: Queue, caller: int, buf: seq<char>, size: nat, stale: seq<char>): (r: Reply)
    requires Valid(q)
    ensures Valid(r.queue) && r.queue.users == q.users
    ensures r.ret < 0 ==> r.queue == q
    ensures size > MAX_MSG_LEN ==> r.ret == -EINVAL
    ensures size <= MAX_MSG_LEN && |buf| < CopySize(size) ==>
              r.ret == -EFAULT
    ensures r.ret >= 0 ==>
              && r.ret == size
              && r.queue.tail == (q.tail + 1) % MAX_MSG_COUNT
              && (forall i :: 0 <= i < MAX_MSG_COUNT && i != q.tail ==> r.queue.messages[i] == q.messages[i])
              && r.queue.messages[q.tail].sender == caller - 1
              && r.queue.messages[q.tail].text[MAX_MSG_LEN - 1] == NUL
    ensures size <= MAX_MSG_LEN && |buf| >= CopySize(size) ==>
              var route := RoutePayload(Payload(buf, size), stale);
              && (route.Invalid? <==> r.ret == -EINVAL)
              && (route.Routed? ==>
                    && r.ret == size
                    && r.queue.messages[q.tail].target == route.target
                    && CStr(r.queue.messages[q.tail].text) == Truncate(route.content, MAX_MSG_LEN - 1))
  {
    if size > MAX_MSG_LEN then Reply(-EINVAL, q)
    else
      if |buf| < CopySize(size) then Reply(-EFAULT, q)
      else
        match RoutePayload(Payload(buf, size), stale)
        case Invalid => Reply(-EINVAL, q)
        case Routed(target, content) =>
          Reply(size, Store(q, caller - 1, target, content))
  }

  /** After one write, a reader whose cursor was at the old `tail` visits
      exactly the slot just written. */
  lemma ReadAfterOneWrite(q: Queue, w: Queue, reader: int)
    requires Valid(q) && Valid(w) && w.users == q.users && w.tail == (q.tail + 1) % MAX_MSG_COUNT
    requires Find(q, reader - 1) >= 0 && q.users[Find(q, reader - 1)].head == q.tail
    ensures var r := Read(w, reader, MAX_MSG_LEN);
            var m := w.messages[q.tail];
            && (Deliverable(m, reader - 1) ==> r.data == m.text)
            && (!Deliverable(m, reader - 1) ==> r.ret == 0)
  {
    var u := Find(q, reader - 1);
    assert Find(w, reader - 1) == u;
    assert Pending(w, u) == 1;
    assert w.messages[q.tail].text[..MAX_MSG_LEN] == w.messages[q.tail].text;
  }

  /** The private round trip: a reader whose cursor is at `tail` receives
      the content of the next `"@<pid> <content>"` written by anyone, and
      any other reader whose cursor is also at `tail` gets nothing from it
      (it only moves past the slot). */
  lemma PrivateRoundTrip(q: Queue, writer: int, reader: int, other: int,
                         content: seq<char>, stale: seq<char>)
    requires Valid(q) && NUL !in content
    requires 0 < reader - 1 <= INT32_MAX
    requires |PrivatePayload(reader - 1, content)| <= MAX_MSG_LEN - 1
    requires Find(q, reader - 1) >= 0 && q.users[Find(q, reader - 1)].head == q.tail
    requires other != reader && Find(q, other - 1) >= 0 && q.users[Find(q, other - 1)].head == q.tail
    ensures var payload := PrivatePayload(reader - 1, content);
            var w := Write(q, writer, payload, |payload|, stale);
            && w.ret == |payload|
            && CStr(Read(w.queue, reader, MAX_MSG_LEN).data) == content
            && Read(w.queue, other, MAX_MSG_LEN).ret == 0
  {
    var payload := PrivatePayload(reader - 1, content);
    RoutePrivateRoundTrip(reader - 1, content, stale);
    WriteStores(q, writer, payload, stale, reader - 1, content);
    var w := Write(q, writer, payload, |payload|, stale);
    ReadAfterOneWrite(q, w.queue, reader);
    ReadAfterOneWrite(q, w.queue, other);
  }

  /** A write of a payload that routes to `target` with `content` stores
      exactly that in slot `tail`. */
  lemma WriteStores(q: Queue, writer: int, payload: seq<char>, stale: seq<char>, target: int, content: seq<char>)
    requires Valid(q) && NUL !in payload && |payload| <= MAX_MSG_LEN - 1
    requires NUL !in content && |content| <= MAX_MSG_LEN - 1
    requires RoutePayload(payload, stale) == Routed(target, content)
    ensures var w := Write(q, writer, payload, |payload|, stale);
            && w.ret == |payload|
            && Valid(w.queue) && w.queue.users == q.users && w.queue.tail == (q.tail + 1) % MAX_MSG_COUNT
            && w.queue.messages[q.tail].target == target
            && CStr(w.queue.messages[q.tail].text) == content
  {
    assert CopySize(|payload|) == |payload|;
    assert payload[..|payload|] == payload;
    CStrOfPlain(payload);
    assert Payload(payload, |payload|) == payload;
    TruncateShort(content, MAX_MSG_LEN - 1);
    var w := Write(q, writer, payload, |payload|, stale);
    assert w.queue == Store(q, writer - 1, target, content);
  }

  /** The broadcast round trip: a payload not starting with `@` reaches
      every registered reader whose cursor is at `tail`. */
  lemma BroadcastRoundTrip(q: Queue, writer: int, reader: int, content: seq<char>, stale: seq<char>)
    requires Valid(q) && NUL !in content && |content| <= MAX_MSG_LEN - 1
    requires |content| == 0 || content[0] != '@'
    requires Find(q, reader - 1) >= 0 && q.users[Find(q, reader - 1)].head == q.tail
    ensures var w := Write(q, writer, content, |content|, stale);
            && w.ret == |content|
            && CStr(Read(w.queue, reader, MAX_MSG_LEN).data) == content
  {
    WriteStores(q, writer, content, stale, 0, content);
    var w := Write(q, writer, content, |content|, stale);
    ReadAfterOneWrite(q, w.queue, reader);
  }

  /** A visited slot is not visited again until `tail` wraps past it: one
      read shortens the reader's pending window by one, and the slot it
      visited lies outside the new window. In particular a reader with one
      pending slot gets 0 from the read after it. */
  lemma DeliveredOnce(q: Queue, reader: int, size: nat, size': nat)
    requires Valid(q) && Find(q, reader - 1) >= 0 && Pending(q, Find(q, reader - 1)) > 0
    ensures var u := Find(q, reader - 1);
            var r := Read(q, reader, size);
            var h' := r.queue.users[u].head;
            && Find(r.queue, reader - 1) == u
            && Pending(r.queue, u) == Pending(q, u) - 1
            && (q.users[u].head - h' + MAX_MSG_COUNT) % MAX_MSG_COUNT >= Pending(r.queue, u)
            && (Pending(q, u) == 1 ==> Read(r.queue, reader, size').ret == 0)
  {
    var u := Find(q, reader - 1);
    var r := Read(q, reader, size);
    assert r == Step(q, u, reader - 1, size);
    BehindCursor(q.users[u].head);
    StepKeepsFind(q, reader, size);
  }

  /** One step forward leaves the old cursor 63 slots behind the new one. */
  lemma BehindCursor(h: int)
    requires 0 <= h < MAX_MSG_COUNT
    ensures (h - (h + 1) % MAX_MSG_COUNT + MAX_MSG_COUNT) % MAX_MSG_COUNT == MAX_MSG_COUNT - 1
  {
  }

  lemma StepKeepsFind(q: Queue, reader: int, size: nat)
    requires Valid(q) && Find(q, reader - 1) >= 0 && Pending(q, Find(q, reader - 1)) > 0
    ensures Find(Read(q, reader, size).queue, reader - 1) == Find(q, reader - 1)
  {
    var u := Find(q, reader - 1);
    assert Find(Read(q, reader, size).queue, reader - 1) == u;
  }


}
