/**
  The count-based chat device: users register through an ioctl, `write`
  routes a payload into the slot at `tail`, and `read` drains the caller's
  cursor for as long as its `count` field is positive, concatenating the
  messages meant for it. The queue lives in zero-initialised static memory.
 */
module CountDevice {
  import opened CString
  import opened Errno
  import opened AtPrefix
  import opened Ring
  import opened ChatCodes

  /** What the operations need of a queue: the ring's shape and a
      terminator in the last byte of every content array. */
  ghost predicate Shape(q: Queue)
  {
    && WellFormed(q, MAX_USER_NUMBER)
    && forall i :: 0 <= i < MAX_MSG_COUNT ==> q.messages[i].text[MAX_MSG_LEN - 1] == NUL
  }

  /** The states the device can reach: `count` is only ever set to 0 and
      decremented, so it is never positive. */
  ghost predicate Valid(q: Queue)
  {
    && Shape(q)
    && forall i :: 0 <= i < |q.users| ==> q.users[i].count <= 0
  }

  datatype Reply = Reply(ret: int, queue: Queue)
  datatype ReadReply = ReadReply(ret: int, data: seq<char>, queue: Queue)

  /** `ch_device_init`: zeroed slots, `tail == 0`, no user. */
  function Init(): (q: Queue)
    ensures Valid(q) && q.tail == 0 && q.users == []
  {
    Queue(seq(MAX_MSG_COUNT, _ => Message(0, 0, seq(MAX_MSG_LEN, _ => NUL))), 0, [])
  }

  /** `ch_device_ioctl` with the pid the caller's `struct user` carries. */
  function Ioctl(q: Queue, cmd: int, pid: int): (r: Reply)
    requires Shape(q)
    ensures Shape(r.queue)
    ensures Valid(q) ==> Valid(r.queue)
    ensures r.queue.messages == q.messages && r.queue.tail == q.tail
    ensures cmd != BUILD_ACCOUNT ==> r == Reply(IINS, q)
    ensures cmd == BUILD_ACCOUNT && |q.users| >= MAX_USER_NUMBER ==> r == Reply(-ENOMEM, q)
    ensures cmd == BUILD_ACCOUNT && |q.users| < MAX_USER_NUMBER ==>
              && r.ret == BUILD_SUCC
              && |r.queue.users| == |q.users| + 1
              && r.queue.users[..|q.users|] == q.users
              && r.queue.users[|q.users|] == User(pid, 0, 0)
  {
    if cmd == BUILD_ACCOUNT then
      if |q.users| >= MAX_USER_NUMBER then Reply(-ENOMEM, q)
      else Reply(BUILD_SUCC, q.(users := q.users + [User(pid, 0, 0)]))
    else Reply(IINS, q)
  }

  /** The `k` slots a cursor at `head` visits, in order, wrapping at 64. */
  function Window(msgs: seq<Message>, head: int, k: nat): (w: seq<Message>)
    requires |msgs| == MAX_MSG_COUNT && 0 <= head < MAX_MSG_COUNT
    ensures |w| == k
    decreases k
  {
    if k == 0 then [] else [msgs[head]] + Window(msgs, (head + 1) % MAX_MSG_COUNT, k - 1)
  }

  /** The texts of the messages meant for `pid`, concatenated in order. */
  function Delivered(ms: seq<Message>, pid: int): seq<char>
  {
    if |ms| == 0 then []
    else (if Deliverable(ms[0], pid) then CStr(ms[0].text) else []) + Delivered(ms[1..], pid)
  }

  /** How far a read loop got: slots visited and bytes gathered. */
  datatype Scan = Scan(steps: nat, out: seq<char>)

  /** The loop of `ch_device_read` from cursor `head` with `count` slots to
      go and `out` gathered so far: it stops when `out` reaches `len`, when
      `count` runs out, or before a message for `pid` that would overflow
      `len`, which then stays unvisited. `ScanMeaning` states what it
      gathers. */
  function ScanFrom(msgs: seq<Message>, pid: int, len: nat, head: int, count: int, out: seq<char>): (r: Scan)
    requires |msgs| == MAX_MSG_COUNT && 0 <= head < MAX_MSG_COUNT && |out| <= len
    ensures r.steps <= (if count > 0 then count else 0)
    ensures |r.out| <= len
    decreases if count > 0 then count else 0
  {
    if |out| < len && count > 0 then
      var m := msgs[head];
      if Deliverable(m, pid) && |out| + |CStr(m.text)| > len then Scan(0, out)
      else
        var out' := if Deliverable(m, pid) then out + CStr(m.text) else out;
        var r := ScanFrom(msgs, pid, len, (head + 1) % MAX_MSG_COUNT, count - 1, out');
        Scan(r.steps + 1, r.out)
    else Scan(0, out)
  }

  /** The loop gathers exactly the texts meant for `pid` in the slots it
      visits, and it stops early only when `len` is reached or the next
      message for `pid` would not fit. */
  lemma ScanMeaning(msgs: seq<Message>, pid: int, len: nat, head: int, count: int, out: seq<char>)
    requires |msgs| == MAX_MSG_COUNT && 0 <= head < MAX_MSG_COUNT && |out| <= len
    ensures var r := ScanFrom(msgs, pid, len, head, count, out);
            && r.out == out + Delivered(Window(msgs, head, r.steps), pid)
            && (r.steps < count ==>
                  var next := msgs[(head + r.steps) % MAX_MSG_COUNT];
                  |r.out| == len || (Deliverable(next, pid) && |r.out| + |CStr(next.text)| > len))
  {
    ScanGathers(msgs, pid, len, head, count, out);
    ScanStops(msgs, pid, len, head, count, out);
  }

  lemma {:induction false} ScanGathers(msgs: seq<Message>, pid: int, len: nat, head: int, count: int, out: seq<char>)
    requires |msgs| == MAX_MSG_COUNT && 0 <= head < MAX_MSG_COUNT && |out| <= len
    ensures var r := ScanFrom(msgs, pid, len, head, count, out);
            r.out == out + Delivered(Window(msgs, head, r.steps), pid)
    decreases if count > 0 then count else 0
  {
    var r := ScanFrom(msgs, pid, len, head, count, out);
    if |out| < len && count > 0 {
      var m := msgs[head];
      var head' := (head + 1) % MAX_MSG_COUNT;
      if !(Deliverable(m, pid) && |out| + |CStr(m.text)| > len) {
        var out' := if Deliverable(m, pid) then out + CStr(m.text) else out;
        var r' := ScanFrom(msgs, pid, len, head', count - 1, out');
        assert r == Scan(r'.steps + 1, r'.out);
        ScanGathers(msgs, pid, len, head', count - 1, out');
        ScanStep(msgs, pid, head, r'.steps, out);
      } else {
        assert r.steps == 0;
        assert out + [] == out;
      }
    } else {
      assert r.steps == 0;
      assert out + [] == out;
    }
  }

  lemma {:induction false} ScanStops(msgs: seq<Message>, pid: int, len: nat, head: int, count: int, out: seq<char>)
    requires |msgs| == MAX_MSG_COUNT && 0 <= head < MAX_MSG_COUNT && |out| <= len
    ensures var r := ScanFrom(msgs, pid, len, head, count, out);
            r.steps < count ==>
              var next := msgs[(head + r.steps) % MAX_MSG_COUNT];
              |r.out| == len || (Deliverable(next, pid) && |r.out| + |CStr(next.text)| > len)
    decreases if count > 0 then count else 0
  {
    var r := ScanFrom(msgs, pid, len, head, count, out);
    if |out| < len && count > 0 {
      var m := msgs[head];
      var head' := (head + 1) % MAX_MSG_COUNT;
      if !(Deliverable(m, pid) && |out| + |CStr(m.text)| > len) {
        var out' := if Deliverable(m, pid) then out + CStr(m.text) else out;
        var r' := ScanFrom(msgs, pid, len, head', count - 1, out');
        assert r == Scan(r'.steps + 1, r'.out);
        ScanStops(msgs, pid, len, head', count - 1, out');
        NextIndex(head, r'.steps);
      } else {
        assert (head + r.steps) % MAX_MSG_COUNT == head;
      }
    } else {
      assert (head + r.steps) % MAX_MSG_COUNT == head;
    }
  }

  lemma NextIndex(head: nat, steps: nat)
    ensures ((head + 1) % MAX_MSG_COUNT + steps) % MAX_MSG_COUNT == (head + (steps + 1)) % MAX_MSG_COUNT
  {
    ModAddLeft(head + 1, steps);
  }

  /** One more visited slot appends that slot's contribution. */
  lemma ScanStep(msgs: seq<Message>, pid: int, head: int, k: nat, out: seq<char>)
    requires |msgs| == MAX_MSG_COUNT && 0 <= head < MAX_MSG_COUNT
    ensures var m := msgs[head];
            (if Deliverable(m, pid) then out + CStr(m.text) else out)
              + Delivered(Window(msgs, (head + 1) % MAX_MSG_COUNT, k), pid)
            == out + Delivered(Window(msgs, head, k + 1), pid)
  {
    var w := Window(msgs, head, k + 1);
    assert w[0] == msgs[head];
    assert w[1..] == Window(msgs, (head + 1) % MAX_MSG_COUNT, k);
  }

  /** `ch_device_read`'s loop for table entry `u`, started from `count`
      remaining slots: moves the cursor past the visited slots and returns
      the gathered bytes, or `-EAGAIN` when there are none. */
  function Drain(q: Queue, u: nat, pid: int, len: nat, count: int): (r: ReadReply)
    requires Shape(q) && u < |q.users|
    ensures Shape(r.queue)
    ensures r.queue.messages == q.messages && r.queue.tail == q.tail
    ensures |r.queue.users| == |q.users|
    ensures forall i :: 0 <= i < |q.users| && i != u ==> r.queue.users[i] == q.users[i]
    ensures r.queue.users[u].pid == q.users[u].pid
    ensures var k := count - r.queue.users[u].count;
            && 0 <= k <= (if count > 0 then count else 0)
            && r.queue.users[u].head == (q.users[u].head + k) % MAX_MSG_COUNT
            && r.data == Delivered(Window(q.messages, q.users[u].head, k), pid)
            && (k < count ==>
                  var next := q.messages[r.queue.users[u].head];
                  |r.data| == len || (Deliverable(next, pid) && |r.data| + |CStr(next.text)| > len))
    ensures |r.data| <= len
    ensures (r.ret > 0 && r.ret == |r.data|) || (r.ret == -EAGAIN && r.data == [])
  {
    var user := q.users[u];
    var sc := ScanFrom(q.messages, pid, len, user.head, count, []);
    ScanMeaning(q.messages, pid, len, user.head, count, []);
    var q' := SetCursor(q, u, (user.head + sc.steps) % MAX_MSG_COUNT, count - sc.steps);
    ReadReply(if |sc.out| > 0 then |sc.out| else -EAGAIN, sc.out, q')
  }

  /** `ch_device_read` by the process `caller`: looks up `caller - 1` and
      runs the loop from that user's `count` field. */
  function Read(q: Queue, caller: int, len: nat): (r: ReadReply)
    requires Shape(q)
    ensures Shape(r.queue)
    ensures Valid(q) ==> Valid(r.queue)
    ensures Find(q, caller - 1) == -1 ==> r == ReadReply(-EINVAL, [], q)
    ensures Find(q, caller - 1) >= 0 ==>
              var u := Find(q, caller - 1);
              r == Drain(q, u, caller - 1, len, q.users[u].count)
  {
    var pid := caller - 1;
    var u := Find(q, pid);
    if u < 0 then ReadReply(-EINVAL, [], q)
    else Drain(q, u, pid, len, q.users[u].count)
  }

  /** `ch_device_write` of `len` bytes from the caller's readable buffer
      `buf`; `stale` as for the wraparound device. The `tail >= 64` check
      never fires, so the call never reports a full queue. */
  function Write(q: Queue, caller: int, buf: seq<char>, len: nat, stale: seq<char>): (r: Reply)
    requires Shape(q)
    ensures Shape(r.queue) && r.queue.users == q.users
    ensures Valid(q) ==> Valid(r.queue)
    ensures r.ret < 0 ==> r.queue == q
    ensures r.ret != -ENOMEM
    ensures len > MAX_MSG_LEN ==> r.ret == -EINVAL
    ensures len <= MAX_MSG_LEN && |buf| < CopySize(len) ==> r.ret == -EFAULT
    ensures r.ret >= 0 ==>
              && r.ret == len
              && r.queue.tail == (q.tail + 1) % MAX_MSG_COUNT
              && (forall i :: 0 <= i < MAX_MSG_COUNT && i != q.tail ==> r.queue.messages[i] == q.messages[i])
              && r.queue.messages[q.tail].sender == caller
    ensures len <= MAX_MSG_LEN && |buf| >= CopySize(len) ==>
              var route := RoutePayload(Payload(buf, len), stale);
              && (route.Invalid? <==> r.ret == -EINVAL)
              && (route.Routed? ==>
                    && r.ret == len
                    && r.queue.messages[q.tail].target == route.target
                    && CStr(r.queue.messages[q.tail].text) == Truncate(route.content, MAX_MSG_LEN - 1))
  {
    if len > MAX_MSG_LEN then Reply(-EINVAL, q)
    else if |buf| < CopySize(len) then Reply(-EFAULT, q)
    else
      match RoutePayload(Payload(buf, len), stale)
      case Invalid => Reply(-EINVAL, q)
      case Routed(target, content) =>
        if q.tail >= MAX_MSG_COUNT then Reply(-ENOMEM, q)
        else Reply(len, Store(q, caller, target, content))
  }

  /** As written, a registered reader never receives anything: its `count`
      is never positive, so the loop never runs, the call returns `-EAGAIN`
      and the queue is unchanged. */
  lemma RegisteredReadNeverDelivers(q: Queue, caller: int, len: nat)
    requires Valid(q) && Find(q, caller - 1) >= 0
    ensures Read(q, caller, len) == ReadReply(-EAGAIN, [], q)
  {
    var u := Find(q, caller - 1);
    var r := Read(q, caller, len);
    assert q.users[u].count <= 0;
    assert r.queue.users[u] == q.users[u];
    assert r.queue.users == q.users;
  }

  /** The read as evidently intended: like the wraparound device, it first
      sets `count` to the caller's pending distance, then runs the loop. */
  function ReadPending(q: Queue, caller: int, len: nat): (r: ReadReply)
    requires Shape(q)
    ensures Shape(r.queue) && |r.queue.users| == |q.users|
    ensures Find(q, caller - 1) == -1 ==> r == ReadReply(-EINVAL, [], q)
    ensures Find(q, caller - 1) >= 0 ==>
              var u := Find(q, caller - 1);
              && r.queue.messages == q.messages && r.queue.tail == q.tail
              && (forall i :: 0 <= i < |q.users| && i != u ==> r.queue.users[i] == q.users[i])
              && r.queue.users[u].pid == q.users[u].pid
              && Pending(r.queue, u) <= Pending(q, u)
              && r.data == Delivered(Window(q.messages, q.users[u].head, Pending(q, u) - Pending(r.queue, u)), caller - 1)
              && |r.data| <= len
              && ((r.ret > 0 && r.ret == |r.data|) || (r.ret == -EAGAIN && r.data == []))
              && (Pending(r.queue, u) > 0 ==>
                    var next := q.messages[r.queue.users[u].head];
                    |r.data| == len || (Deliverable(next, caller - 1) && |r.data| + |CStr(next.text)| > len))
  {
    var pid := caller - 1;
    var u := Find(q, pid);
    if u < 0 then ReadReply(-EINVAL, [], q)
    else
      var r := Drain(q, u, pid, len, Pending(q, u));
      var k := Pending(q, u) - r.queue.users[u].count;
      PendingAfterMoving(q, r.queue, u, k);
      r
  }

  lemma PendingAfterMoving(q: Queue, q': Queue, u: nat, k: nat)
    requires WellFormed(q, MAX_USER_NUMBER) && WellFormed(q', MAX_USER_NUMBER)
    requires u < |q.users| && u < |q'.users| && q'.tail == q.tail
    requires k <= Pending(q, u) && q'.users[u].head == (q.users[u].head + k) % MAX_MSG_COUNT
    ensures Pending(q', u) == Pending(q, u) - k
  {
    MoveCursor(q.users[u].head, q.tail, k);
  }

  /** Moving a cursor `k` slots on, without passing `tail`, shortens its
      pending distance by `k`. */
  lemma MoveCursor(h: int, t: int, k: nat)
    requires 0 <= h < MAX_MSG_COUNT && 0 <= t < MAX_MSG_COUNT
    requires k <= (t - h + MAX_MSG_COUNT) % MAX_MSG_COUNT
    ensures (t - (h + k) % MAX_MSG_COUNT + MAX_MSG_COUNT) % MAX_MSG_COUNT
         == (t - h + MAX_MSG_COUNT) % MAX_MSG_COUNT - k
  {
    if t >= h {
      assert (t - h + MAX_MSG_COUNT) % MAX_MSG_COUNT == t - h;
      assert (h + k) % MAX_MSG_COUNT == h + k;
    } else {
      assert (t - h + MAX_MSG_COUNT) % MAX_MSG_COUNT == t - h + MAX_MSG_COUNT;
      if h + k >= MAX_MSG_COUNT {
        assert (h + k) % MAX_MSG_COUNT == h + k - MAX_MSG_COUNT;
      } else {
        assert (h + k) % MAX_MSG_COUNT == h + k;
      }
    }
  }

  /** With the intended read, a reader with a pending message meant for it
      that fits in `len` receives that message's text first. */
  lemma ReadPendingDelivers(q: Queue, caller: int, len: nat)
    requires Shape(q) && Find(q, caller - 1) >= 0
    requires var u := Find(q, caller - 1);
             var m := q.messages[q.users[u].head];
             Pending(q, u) > 0 && Deliverable(m, caller - 1) && 0 < |CStr(m.text)| <= len
    ensures var u := Find(q, caller - 1);
            var m := q.messages[q.users[u].head];
            var r := ReadPending(q, caller, len);
            && r.ret > 0
            && |r.data| >= |CStr(m.text)|
            && r.data[..|CStr(m.text)|] == CStr(m.text)
  {
    var u := Find(q, caller - 1);
    var h := q.users[u].head;
    var m := q.messages[h];
    var r := Drain(q, u, caller - 1, len, Pending(q, u));
    var k := Pending(q, u) - r.queue.users[u].count;
    assert k > 0;
    var w := Window(q.messages, h, k);
    assert w[0] == m;
    assert w == [m] + w[1..];
    assert r.data == CStr(m.text) + Delivered(w[1..], caller - 1);
  }
}
