/**
  The linear-buffer chat device: `write` appends the caller's record at
  `buffer_index` until 32 slots are used, and `read` hands the caller, in
  slot order, every buffered message meant for it that still fits, then
  empties the whole buffer. The record a client writes is taken as is: the
  device trusts its target pid.
 */
module LinearDevice {
  import opened CString
  import opened ChatCodes

  const MAX_BUF_SIZE: nat := 32

  /** The record a client writes: a target pid (0 = every reader) and the
      content array, read up to its first NUL. */
  datatype Record = Record(target: int, text: seq<char>)

  /** The buffered records, the next free slot, and the registered pids. */
  datatype Device = Device(buffer: seq<Record>, index: int, users: seq<int>)

  /** Every reachable device: 32 slots, `0 <= index <= 32`, at most 16 users,
      and every slot's text a stored C string of at most 255 chars. */
  ghost predicate Valid(d: Device)
  {
    && |d.buffer| == MAX_BUF_SIZE
    && 0 <= d.index <= MAX_BUF_SIZE
    && |d.users| <= MAX_USER_NUMBER
    && forall i :: 0 <= i < MAX_BUF_SIZE ==> NUL !in d.buffer[i].text && |d.buffer[i].text| < MAX_MSG_LEN
  }

  predicate For(r: Record, pid: int)
  {
    r.target == pid || r.target == 0
  }

  datatype Reply = Reply(ret: int, device: Device)

  /** The zero-initialised statics. */
  function Init(): (d: Device)
    ensures Valid(d) && d.index == 0 && d.users == []
  {
    Device(seq(MAX_BUF_SIZE, _ => Record(0, [])), 0, [])
  }

  /** `ch_device_write` of the record `rec`, with `len` the byte count the
      caller passed: `-1` on a full buffer, otherwise the record is stored
      with its text cut to 255 chars. */
  function Write(d: Device, rec: Record, len: int): (r: Reply)
    requires Valid(d)
    ensures Valid(r.device) && r.device.users == d.users
    ensures d.index >= MAX_BUF_SIZE <==> r == Reply(-1, d)
    ensures d.index < MAX_BUF_SIZE ==>
              && r.ret == len
              && r.device.index == d.index + 1
              && r.device.buffer[d.index] == Record(rec.target, Truncate(rec.text, MAX_MSG_LEN - 1))
              && forall i :: 0 <= i < MAX_BUF_SIZE && i != d.index ==> r.device.buffer[i] == d.buffer[i]
  {
    if d.index >= MAX_BUF_SIZE then Reply(-1, d)
    else
      var stored := Record(rec.target, Truncate(rec.text, MAX_MSG_LEN - 1));
      Reply(len, d.(buffer := d.buffer[d.index := stored], index := d.index + 1))
  }

  /** The texts of the records meant for `pid`, in slot order. */
  function Texts(rs: seq<Record>, pid: int): (ts: seq<seq<char>>)
    ensures |ts| <= |rs|
  {
    if |rs| == 0 then []
    else
      var last := rs[|rs| - 1];
      Texts(rs[..|rs| - 1], pid) + (if For(last, pid) then [last.text] else [])
  }

  function Concat(ts: seq<seq<char>>): seq<char>
  {
    if |ts| == 0 then [] else Concat(ts[..|ts| - 1]) + ts[|ts| - 1]
  }

  /** The number of leading texts of `ts` whose concatenation fits in
      `room`: the longest such prefix (see `FillIsLongest`). */
  function Fill(ts: seq<seq<char>>, room: nat): (k: nat)
    ensures k <= |ts|
    ensures |Concat(ts[..k])| <= room
  {
    if |Concat(ts)| <= room then
      assert ts[..|ts|] == ts;
      |ts|
    else
      var k := Fill(ts[..|ts| - 1], room);
      assert ts[..|ts| - 1][..k] == ts[..k];
      k
  }

  /** The outcome of a read: the caller must wait for a write, or the call
      returns with `ret` bytes in `data` and the new device state. */
  datatype ReadOutcome = Blocked | Done(ret: int, data: seq<char>, device: Device)

  /** What a read by `caller` into `len` bytes delivers: the longest run of
      the messages meant for it, in slot order, that fits; and the buffer is
      emptied whatever was delivered. */
  function Delivery(d: Device, caller: int, len: nat): (r: ReadOutcome)
    requires Valid(d)
    ensures r.Blocked? <==> d.index == 0
    ensures r.Done? ==> Valid(r.device) && r.device == d.(index := 0)
    ensures r.Done? ==> |r.data| <= len && r.ret == |r.data|
  {
    if d.index == 0 then Blocked
    else
      var ts := Texts(d.buffer[..d.index], caller);
      FillIsLongest(ts, len);
      var data := Concat(ts[..Fill(ts, len)]);
      Done(|data|, data, d.(index := 0))
  }

  /** `ch_device_read` by process `caller`: the slot loop with its early
      `break`. An empty buffer makes the caller wait. */
  method Read(d: Device, caller: int, len: nat) returns (r: ReadOutcome)
    requires Valid(d)
    ensures r == Delivery(d, caller, len)
  {
    if d.index == 0 {
      return Blocked;
    }
    ghost var rs := d.buffer[..d.index];
    var data: seq<char> := [];
    var i := 0;
    while i < d.index
      invariant 0 <= i <= d.index
      invariant data == Concat(Texts(rs[..i], caller)) && |data| <= len
    {
      var m := d.buffer[i];
      assert m == rs[i];
      TextsStep(rs, i, caller);
      if For(m, caller) {
        if |data| + |m.text| > len {
          FillStops(rs, i, caller, len);
          break;
        }
        ConcatSnoc(Texts(rs[..i], caller), m.text);
        data := data + m.text;
      } else {
        ghost var before := Texts(rs[..i], caller);
        assert before + [] == before;
      }
      i := i + 1;
    }
    if i == d.index {
      assert rs[..i] == rs;
      FillAll(rs, caller, len);
    }
    return Done(|data|, data, d.(index := 0));
  }

  /** One more slot adds its text when it is meant for `pid`. */
  lemma TextsStep(rs: seq<Record>, i: nat, pid: int)
    requires i < |rs|
    ensures Texts(rs[..i + 1], pid) == Texts(rs[..i], pid) + if For(rs[i], pid) then [rs[i].text] else []
  {
    assert rs[..i + 1][..i] == rs[..i];
  }

  /** The loop's `break`: the texts before slot `i` fit and the one in slot
      `i` does not, so they are what `Fill` takes. */
  lemma FillStops(rs: seq<Record>, i: nat, pid: int, len: nat)
    requires i < |rs| && For(rs[i], pid)
    requires |Concat(Texts(rs[..i], pid))| <= len < |Concat(Texts(rs[..i], pid))| + |rs[i].text|
    ensures var ts := Texts(rs, pid);
            Concat(ts[..Fill(ts, len)]) == Concat(Texts(rs[..i], pid))
  {
    var ts := Texts(rs, pid);
    var before := Texts(rs[..i], pid);
    var n := |before|;
    TextsStep(rs, i, pid);
    TextsPrefixAll(rs, i + 1, pid);
    assert ts[..n + 1] == before + [rs[i].text];
    assert ts[..n + 1][..n] == before;
    assert ts[..n] == before;
    ConcatSnoc(before, rs[i].text);
    FillAt(ts, len, n);
  }

  lemma ConcatSnoc(ts: seq<seq<char>>, t: seq<char>)
    ensures Concat(ts + [t]) == Concat(ts) + t
  {
    assert (ts + [t])[..|ts|] == ts;
  }

  /** The loop ran to the end: everything meant for `pid` fits. */
  lemma FillAll(rs: seq<Record>, pid: int, len: nat)
    requires |Concat(Texts(rs, pid))| <= len
    ensures var ts := Texts(rs, pid);
            Concat(ts[..Fill(ts, len)]) == Concat(Texts(rs[..|rs|], pid))
  {
    var ts := Texts(rs, pid);
    assert rs[..|rs|] == rs;
    assert ts[..|ts|] == ts;
  }

  /** `Texts(rs[..i])` is a prefix of `Texts(rs)`. */
  ghost predicate TextsPrefix(rs: seq<Record>, i: nat, pid: int)
  {
    i <= |rs| &&
    var p := Texts(rs[..i], pid);
    |p| <= |Texts(rs, pid)| && Texts(rs, pid)[..|p|] == p
  }

  lemma {:induction false} TextsPrefixAll(rs: seq<Record>, i: nat, pid: int)
    requires i <= |rs|
    ensures TextsPrefix(rs, i, pid)
    decreases |rs| - i
  {
    if i == |rs| {
      assert rs[..i] == rs;
    } else {
      var init := rs[..|rs| - 1];
      TextsPrefixAll(init, i, pid);
      assert init[..i] == rs[..i];
      var p := Texts(rs[..i], pid);
      assert Texts(rs, pid)[..|Texts(init, pid)|] == Texts(init, pid);
      assert Texts(rs, pid)[..|p|] == Texts(init, pid)[..|p|];
    }
  }

  /** Longer prefixes never concatenate to fewer chars. */
  lemma {:induction false} ConcatGrows(ts: seq<seq<char>>, j: nat, k: nat)
    requires j <= k <= |ts|
    ensures |Concat(ts[..j])| <= |Concat(ts[..k])|
    decreases k - j
  {
    if j < k {
      ConcatGrows(ts, j, k - 1);
      assert ts[..k][..k - 1] == ts[..k - 1];
    }
  }

  /** `Fill` is the length of the longest prefix whose concatenation fits:
      that prefix fits and every longer one overflows. */
  lemma {:induction false} FillIsLongest(ts: seq<seq<char>>, room: nat)
    ensures |Concat(ts[..Fill(ts, room)])| <= room
    ensures forall j :: Fill(ts, room) < j <= |ts| ==> |Concat(ts[..j])| > room
    decreases |ts|
  {
    assert ts[..|ts|] == ts;
    if |Concat(ts)| > room {
      var init := ts[..|ts| - 1];
      FillIsLongest(init, room);
      assert forall j :: 0 <= j <= |init| ==> init[..j] == ts[..j];
      forall j | Fill(ts, room) < j <= |ts|
        ensures |Concat(ts[..j])| > room
      {
        if j == |ts| {
        } else {
          assert init[..j] == ts[..j];
        }
      }
    }
  }

  /** A prefix that fits, followed by a text that does not, is what `Fill`
      takes. */
  lemma FillAt(ts: seq<seq<char>>, room: nat, n: nat)
    requires n < |ts|
    requires |Concat(ts[..n])| <= room < |Concat(ts[..n + 1])|
    ensures Fill(ts, room) == n
  {
    FillIsLongest(ts, room);
    var k := Fill(ts, room);
    if k > n {
      ConcatGrows(ts, n + 1, k);
    }
  }

  /** `ch_device_ioctl`: what the call returns and the accounts it copies
      out for `READ_ACCOUNT_INF`. */
  datatype IoctlReply = IoctlReply(ret: int, accounts: seq<int>, device: Device)

  /** `ch_device_ioctl` with the pid the caller's `struct user` carries.
      `BUILD_ACCOUNT` stores into `user_buffer[user_num]` without a bound
      check, so a seventeenth registration is excluded by the precondition. */
  function Ioctl(d: Device, cmd: int, pid: int): (r: IoctlReply)
    requires Valid(d)
    requires cmd == BUILD_ACCOUNT ==> |d.users| < MAX_USER_NUMBER
    ensures Valid(r.device)
    ensures r.device.buffer == d.buffer && r.device.index == d.index
    ensures cmd == BUILD_ACCOUNT ==>
              r.ret == BUILD_SUCC && r.device.users == d.users + [pid]
    ensures cmd == READ_ACCOUNT_INF ==>
              r.device == d && r.ret == |d.users| && r.accounts == d.users
    ensures cmd != BUILD_ACCOUNT && cmd != READ_ACCOUNT_INF ==>
              r == IoctlReply(IINS, [], d)
  {
    if cmd == BUILD_ACCOUNT then IoctlReply(BUILD_SUCC, [], d.(users := d.users + [pid]))
    else if cmd == READ_ACCOUNT_INF then IoctlReply(|d.users|, d.users, d)
    else IoctlReply(IINS, [], d)
  }

  /** Several writes in order, with no read in between. */
  function WriteAll(d: Device, recs: seq<Record>): (r: Device)
    requires Valid(d)
    ensures Valid(r) && r.users == d.users
    ensures r.index == if d.index + |recs| <= MAX_BUF_SIZE then d.index + |recs| else MAX_BUF_SIZE
    decreases |recs|
  {
    if |recs| == 0 then d else WriteAll(Write(d, recs[0], MAX_MSG_LEN).device, recs[1..])
  }

  /** A write into an empty buffer followed by a read by the addressee hands
      it the record's text, cut to 255 chars; anyone else gets nothing, and
      either way the buffer is empty again. */
  lemma WriteThenRead(d: Device, rec: Record, reader: int, len: nat)
    requires Valid(d) && d.index == 0 && len >= MAX_MSG_LEN - 1
    ensures var w := Write(d, rec, MAX_MSG_LEN).device;
            var r := Delivery(w, reader, len);
            && r.Done? && r.device.index == 0
            && r.data == (if For(rec, reader) then Truncate(rec.text, MAX_MSG_LEN - 1) else [])
  {
    var w := Write(d, rec, MAX_MSG_LEN).device;
    assert w.buffer[..w.index] == [w.buffer[0]];
    DeliveryOfOne(w, reader, len);
  }

  /** With one record buffered, a read with room for it gets its text when
      it is meant for the reader, and nothing otherwise. */
  lemma DeliveryOfOne(w: Device, reader: int, len: nat)
    requires Valid(w) && w.index == 1 && len >= MAX_MSG_LEN - 1
    ensures Delivery(w, reader, len).data == if For(w.buffer[0], reader) then w.buffer[0].text else []
  {
    var x := w.buffer[0];
    assert w.buffer[..1] == [x];
    var ts := Texts([x], reader);
    TextsOfOne(x, reader);
    if For(x, reader) {
      ConcatOne(x.text);
      assert ts[..1] == ts;
    } else {
      assert ts[..0] == [];
    }
  }

  lemma TextsOfOne(x: Record, pid: int)
    ensures Texts([x], pid) == if For(x, pid) then [x.text] else []
  {
    assert [x][..0] == [];
  }

  lemma ConcatOne(t: seq<char>)
    ensures Concat([t]) == t
  {
    assert [t][..0] == [];
  }

  /** After a read the buffer is empty, so the next read waits: messages
      the read did not deliver are gone. */
  lemma ReadDiscardsRest(d: Device, caller: int, len: nat, other: int, len2: nat)
    requires Valid(d) && d.index > 0
    ensures var r := Delivery(d, caller, len);
            r.Done? && Delivery(r.device, other, len2) == Blocked
  {
  }
}
