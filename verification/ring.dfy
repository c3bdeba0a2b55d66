/**
  The message queue shared by the wraparound and count-based chat devices:
  64 message slots, one write position `tail`, and a table of registered
  users each holding a read cursor `head` and a `count` field.
 */
module Ring {
  import opened CString
  import opened Lookup
  import opened ChatCodes

  const MAX_MSG_COUNT: nat := 64

  /** One slot: the writer, the addressee (0 = every reader) and the raw
      `MAX_MSG_LEN`-char content array. */
  datatype Message = Message(sender: int, target: int, text: seq<char>)

  /** A registered reader: its pid, its read cursor and its `count` field. */
  datatype User = User(pid: int, head: int, count: int)

  datatype Queue = Queue(messages: seq<Message>, tail: int, users: seq<User>)

  /** A slot is for reader `pid` when it is a broadcast or addressed to it. */
  predicate Deliverable(m: Message, pid: int)
  {
    m.target == 0 || m.target == pid
  }

  /** The shape every reachable queue keeps: 64 slots of `MAX_MSG_LEN` chars,
      `tail` and every cursor inside the ring, at most `maxUsers` users. */
  ghost predicate WellFormed(q: Queue, maxUsers: nat)
  {
    && |q.messages| == MAX_MSG_COUNT
    && 0 <= q.tail < MAX_MSG_COUNT
    && |q.users| <= maxUsers
    && (forall i :: 0 <= i < |q.messages| ==> |q.messages[i].text| == MAX_MSG_LEN)
    && (forall i :: 0 <= i < |q.users| ==> 0 <= q.users[i].head < MAX_MSG_COUNT)
  }

  function Pids(users: seq<User>): (r: seq<int>)
    ensures |r| == |users|
    ensures forall i :: 0 <= i < |users| ==> r[i] == users[i].pid
  {
    seq(|users|, i requires 0 <= i < |users| => users[i].pid)
  }

  /** The table index the devices' lookup loop stops at, or -1. */
  function Find(q: Queue, pid: int): (u: int)
    ensures -1 <= u < |q.users|
    ensures u == -1 <==> forall i :: 0 <= i < |q.users| ==> q.users[i].pid != pid
    ensures u >= 0 ==> q.users[u].pid == pid && forall i :: 0 <= i < u ==> q.users[i].pid != pid
  {
    var ps := Pids(q.users);
    var u := IndexOf(ps, pid);
    assert u >= 0 ==> forall i :: 0 <= i < u ==> ps[..u][i] == ps[i];
    u
  }

  /** `(tail - head + 64) % 64`: the number of slots reader `i` has not yet
      visited, i.e. the distance its cursor must travel to reach `tail`. */
  function Pending(q: Queue, i: nat): (n: nat)
    requires 0 <= q.tail < MAX_MSG_COUNT
    requires i < |q.users| && 0 <= q.users[i].head < MAX_MSG_COUNT
    ensures n < MAX_MSG_COUNT
    ensures (q.users[i].head + n) % MAX_MSG_COUNT == q.tail
  {
    (q.tail - q.users[i].head + MAX_MSG_COUNT) % MAX_MSG_COUNT
  }

  /** User `i`'s cursor and `count` replaced; nothing else changes. */
  function SetCursor(q: Queue, i: nat, head: int, count: int): (r: Queue)
    requires i < |q.users|
    requires 0 <= head < MAX_MSG_COUNT
    ensures r.messages == q.messages && r.tail == q.tail && |r.users| == |q.users|
    ensures r.users[i] == User(q.users[i].pid, head, count)
    ensures forall j :: 0 <= j < |q.users| && j != i ==> r.users[j] == q.users[j]
    ensures WellFormed(q, |q.users|) ==> WellFormed(r, |q.users|)
  {
    q.(users := q.users[i := User(q.users[i].pid, head, count)])
  }

  /** The slot write: `messages[tail] = m; tail = (tail + 1) % 64`. */
  function Append(q: Queue, m: Message): (r: Queue)
    requires WellFormed(q, |q.users|) && |m.text| == MAX_MSG_LEN
    ensures WellFormed(r, |q.users|) && r.users == q.users
    ensures r.messages[q.tail] == m
    ensures forall i :: 0 <= i < MAX_MSG_COUNT && i != q.tail ==> r.messages[i] == q.messages[i]
    ensures forall i :: 0 <= i < |q.users| ==> Pending(r, i) == (Pending(q, i) + 1) % MAX_MSG_COUNT
  {
    var r := q.(messages := q.messages[q.tail := m], tail := (q.tail + 1) % MAX_MSG_COUNT);
    assert forall i :: 0 <= i < |q.users| ==> Pending(r, i) == (Pending(q, i) + 1) % MAX_MSG_COUNT by {
      forall i | 0 <= i < |q.users|
        ensures Pending(r, i) == (Pending(q, i) + 1) % MAX_MSG_COUNT
      {
        PendingStep(q.users[i].head, q.tail);
      }
    }
    r
  }

  lemma PendingStep(head: int, tail: int)
    requires 0 <= head < MAX_MSG_COUNT && 0 <= tail < MAX_MSG_COUNT
    ensures ((tail + 1) % MAX_MSG_COUNT - head + MAX_MSG_COUNT) % MAX_MSG_COUNT
         == ((tail - head + MAX_MSG_COUNT) % MAX_MSG_COUNT + 1) % MAX_MSG_COUNT
  {
  }

  /** Several slot writes in order, with no read in between. */
  function AppendAll(q: Queue, ms: seq<Message>): (r: Queue)
    requires WellFormed(q, |q.users|)
    requires forall j :: 0 <= j < |ms| ==> |ms[j].text| == MAX_MSG_LEN
    ensures WellFormed(r, |q.users|) && r.users == q.users
    decreases |ms|
  {
    if |ms| == 0 then q else AppendAll(Append(q, ms[0]), ms[1..])
  }

  /** Every write moves each reader's pending window on by one slot, modulo
      64: writers never wait for readers. */
  lemma {:induction false} PendingAfterAppends(q: Queue, ms: seq<Message>, i: nat)
    requires WellFormed(q, |q.users|) && i < |q.users|
    requires forall j :: 0 <= j < |ms| ==> |ms[j].text| == MAX_MSG_LEN
    ensures Pending(AppendAll(q, ms), i) == (Pending(q, i) + |ms|) % MAX_MSG_COUNT
    decreases |ms|
  {
    if |ms| > 0 {
      var q1 := Append(q, ms[0]);
      PendingAfterAppends(q1, ms[1..], i);
      assert Pending(q1, i) == (Pending(q, i) + 1) % MAX_MSG_COUNT;
      ModAddLeft(Pending(q, i) + 1, |ms| - 1);
    }
  }

  lemma ModAddLeft(a: nat, b: nat)
    ensures (a % MAX_MSG_COUNT + b) % MAX_MSG_COUNT == (a + b) % MAX_MSG_COUNT
  {
    var k := a / MAX_MSG_COUNT;
    assert a == k * MAX_MSG_COUNT + a % MAX_MSG_COUNT;
    assert a + b == (a % MAX_MSG_COUNT + b) + k * MAX_MSG_COUNT;
  }

  /** Wraparound: after 64 writes with no read, a reader that had nothing
      pending has nothing pending again, so all 64 messages are lost to it. */
  lemma SixtyFourWritesAreLost(q: Queue, ms: seq<Message>, i: nat)
    requires WellFormed(q, |q.users|) && i < |q.users| && Pending(q, i) == 0
    requires |ms| == MAX_MSG_COUNT
    requires forall j :: 0 <= j < |ms| ==> |ms[j].text| == MAX_MSG_LEN
    ensures Pending(AppendAll(q, ms), i) == 0
  {
    PendingAfterAppends(q, ms, i);
  }

  /** `min(size, sizeof(temp) - 1)`: how many bytes a write copies in. */
  function CopySize(size: nat): (n: nat)
    ensures n <= size && n <= MAX_MSG_LEN - 1
    ensures n == size || n == MAX_MSG_LEN - 1
  {
    if size < MAX_MSG_LEN - 1 then size else MAX_MSG_LEN - 1
  }

  /** The NUL-free text `temp` holds after `copy_from_user` of
      `CopySize(size)` bytes and the terminator store. */
  function Payload(buf: seq<char>, size: nat): (p: seq<char>)
    requires |buf| >= CopySize(size)
    ensures |p| <= CopySize(size) && p == buf[..|p|] && NUL !in p
    ensures |p| < CopySize(size) ==> buf[|p|] == NUL
  {
    CStr(buf[..CopySize(size)])
  }

  /** The content array a stored message ends up with: at most 255 chars
      of `content`, NUL padding, and the terminator in the last byte. */
  function StoredText(content: seq<char>): (t: seq<char>)
    ensures |t| == MAX_MSG_LEN && t[MAX_MSG_LEN - 1] == NUL
    ensures CStr(t) == Truncate(content, MAX_MSG_LEN - 1)
    ensures forall i :: |CStr(t)| <= i < |t| ==> t[i] == NUL
  {
    var s := Truncate(content, MAX_MSG_LEN - 1);
    PaddedRoundTrip(s, MAX_MSG_LEN);
    Padded(s, MAX_MSG_LEN)
  }

  /** The store at the end of a successful write: slot `tail` gets a
      message from `sender` to `target` holding `content` cut to 255 chars,
      and `tail` moves on. */
  function Store(q: Queue, sender: int, target: int, content: seq<char>): (r: Queue)
    requires WellFormed(q, |q.users|)
    ensures WellFormed(r, |q.users|) && r.users == q.users
    ensures r.tail == (q.tail + 1) % MAX_MSG_COUNT
    ensures forall i :: 0 <= i < MAX_MSG_COUNT && i != q.tail ==> r.messages[i] == q.messages[i]
    ensures r.messages[q.tail].sender == sender && r.messages[q.tail].target == target
    ensures r.messages[q.tail].text[MAX_MSG_LEN - 1] == NUL
    ensures CStr(r.messages[q.tail].text) == Truncate(content, MAX_MSG_LEN - 1)
  {
    Append(q, Message(sender, target, StoredText(content)))
  }
}
