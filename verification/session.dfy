/**
  The linear-buffer device together with its client: the records
  `send_message` produces, written one by one into the device, and what a
  reader then receives.
 */
module Session {
  import opened CString
  import opened ChatCodes
  import opened LinearDevice
  import opened FanOut

  /** A record as the device keeps it: its text cut to 255 chars. */
  function Kept(rec: Record): Record
  {
    Record(rec.target, Truncate(rec.text, MAX_MSG_LEN - 1))
  }

  function Stored(recs: seq<Record>): (s: seq<Record>)
    ensures |s| == |recs|
  {
    if |recs| == 0 then [] else [Kept(recs[0])] + Stored(recs[1..])
  }

  /** Writes that fit land in consecutive slots from `index` on. */
  lemma {:induction false} WriteAllStores(d: Device, recs: seq<Record>)
    requires Valid(d) && d.index + |recs| <= MAX_BUF_SIZE
    ensures WriteAll(d, recs).buffer[..d.index + |recs|] == d.buffer[..d.index] + Stored(recs)
    decreases |recs|
  {
    if |recs| == 0 {
      assert d.index + 0 == d.index;
    } else {
      var d1 := Write(d, recs[0], MAX_MSG_LEN).device;
      var rest := recs[1..];
      var before := d.buffer[..d.index];
      calc {
        WriteAll(d, recs).buffer[..d.index + |recs|];
        { WriteStoresOne(d, recs[0]); }
        WriteAll(d1, rest).buffer[..d1.index + |rest|];
        { WriteAllStores(d1, rest); }
        d1.buffer[..d1.index] + Stored(rest);
        { WriteStoresOne(d, recs[0]); }
        before + [Kept(recs[0])] + Stored(rest);
        before + ([Kept(recs[0])] + Stored(rest));
      }
    }
  }

  lemma WriteStoresOne(d: Device, rec: Record)
    requires Valid(d) && d.index < MAX_BUF_SIZE
    ensures var d1 := Write(d, rec, MAX_MSG_LEN).device;
            d1.index == d.index + 1 && d1.buffer[..d1.index] == d.buffer[..d.index] + [Kept(rec)]
  {
  }

  /** Records whose texts are already short C strings are kept as they are. */
  lemma {:induction false} StoredShort(recs: seq<Record>)
    requires forall j :: 0 <= j < |recs| ==> NUL !in recs[j].text && |recs[j].text| < MAX_MSG_LEN
    ensures Stored(recs) == recs
    decreases |recs|
  {
    if |recs| > 0 {
      TruncateShort(recs[0].text, MAX_MSG_LEN - 1);
      StoredShort(recs[1..]);
      assert recs == [recs[0]] + recs[1..];
    }
  }

  predicate Distinct(ps: seq<int>)
  {
    forall i, j :: 0 <= i < j < |ps| ==> ps[i] != ps[j]
  }

  /** In a broadcast over a table of distinct real pids, the records meant
      for `reader` are one copy of the line when it is another user, and
      none otherwise. */
  lemma {:induction false} TextsOfBroadcast(userpid: seq<int>, self: int, line: seq<char>, reader: int)
    requires Distinct(userpid) && (forall i :: 0 <= i < |userpid| ==> userpid[i] > 0) && reader > 0
    ensures Texts(Broadcast(userpid, self, line), reader)
         == if reader != self && reader in userpid then [Truncate(line, MAX_MSG_LEN - 1)] else []
    decreases |userpid|
  {
    if |userpid| > 0 {
      var init := userpid[..|userpid| - 1];
      var p := userpid[|userpid| - 1];
      assert userpid == init + [p];
      assert Distinct(init);
      TextsOfBroadcast(init, self, line, reader);
      var b := Broadcast(init, self, line);
      var x := Record(p, Truncate(line, MAX_MSG_LEN - 1));
      if p != self {
        assert Broadcast(userpid, self, line) == b + [x];
        TextsSnoc(b, x, reader);
      } else {
        assert Broadcast(userpid, self, line) == b + [];
        assert b + [] == b;
      }
      assert p == reader ==> reader !in init;
      assert reader in userpid <==> reader in init || reader == p;
    }
  }

  lemma TextsSnoc(rs: seq<Record>, x: Record, pid: int)
    ensures Texts(rs + [x], pid) == Texts(rs, pid) + (if For(x, pid) then [x.text] else [])
  {
    assert (rs + [x])[..|rs|] == rs;
  }

  /** A broadcast typed by `self` and written into an empty device reaches
      every other registered user exactly once, and the sender not at all. */
  lemma BroadcastReachesOthers(d: Device, userpid: seq<int>, self: int, input: seq<char>,
                               staleTarget: int, reader: int, len: nat)
    requires Valid(d) && d.index == 0 && |input| > 0 && !IsPrivate(Line(input))
    requires |userpid| <= MAX_BUF_SIZE && Distinct(userpid)
    requires (forall i :: 0 <= i < |userpid| ==> userpid[i] > 0) && reader > 0
    requires len >= MAX_MSG_LEN - 1
    ensures var recs := SendMessage(userpid, self, input, staleTarget);
            var r := Delivery(WriteAll(d, recs), reader, len);
            && (reader != self && reader in userpid ==> r.Done?)
            && (r.Done? ==> r.data == if reader != self && reader in userpid then Line(input) else [])
  {
    var line := Line(input);
    var recs := SendMessage(userpid, self, input, staleTarget);
    assert recs == Broadcast(userpid, self, line);
    TruncateShort(line, MAX_MSG_LEN - 1);
    BroadcastLands(d, userpid, self, line);
    TextsOfBroadcast(userpid, self, line, reader);
    if |recs| > 0 {
      DeliveryOfTexts(WriteAll(d, recs), reader, len);
    }
  }

  /** A broadcast written into an empty device occupies exactly its own
      slots, unchanged. */
  lemma BroadcastLands(d: Device, userpid: seq<int>, self: int, line: seq<char>)
    requires Valid(d) && d.index == 0 && |userpid| <= MAX_BUF_SIZE
    requires NUL !in line && |line| < MAX_MSG_LEN
    ensures var recs := Broadcast(userpid, self, line);
            var w := WriteAll(d, recs);
            w.index == |recs| && w.buffer[..w.index] == recs
  {
    var recs := Broadcast(userpid, self, line);
    TruncateShort(line, MAX_MSG_LEN - 1);
    WriteAllStores(d, recs);
    assert d.buffer[..0] == [];
    StoredShort(recs);
  }

  /** A read that finds at most one text meant for the reader, and enough
      room for it, delivers that text. */
  lemma DeliveryOfTexts(w: Device, reader: int, len: nat)
    requires Valid(w) && w.index > 0 && len >= MAX_MSG_LEN - 1
    requires |Texts(w.buffer[..w.index], reader)| <= 1
    requires forall j :: 0 <= j < |Texts(w.buffer[..w.index], reader)| ==> |Texts(w.buffer[..w.index], reader)[j]| <= len
    ensures var ts := Texts(w.buffer[..w.index], reader);
            Delivery(w, reader, len).data == if |ts| == 1 then ts[0] else []
  {
    var ts := Texts(w.buffer[..w.index], reader);
    assert ts[..0] == [];
    if |ts| == 1 {
      assert Concat(ts) == Concat(ts[..0]) + ts[0];
      assert ts[..1] == ts;
    }
  }
}
