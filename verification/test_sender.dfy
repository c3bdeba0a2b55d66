/**
  The sender of the test client for the linear-buffer device: it looks the
  source and the private target up in the account table, then writes one
  private record or one record per other table entry. In the program the
  account table (`all_user`), the entry count and the private target's digit buffer are
  never filled in; here they are parameters (`allUser`, `userCount`,
  `privateTarget`), as is the ioctl result `ret`.
 */
module TestSender {
  import opened CString
  import opened ChatCodes
  import opened Lookup
  import opened LinearDevice
  import FanOut

  const COPY_ERR: int := -2

  function Count(userCount: int): nat
  {
    if userCount > 0 then userCount else 0
  }

  /** `find_user_by_pid` over the first `userCount` entries of `allUser`. */
  method FindUserByPid(user: int, allUser: seq<int>, userCount: int) returns (r: int)
    requires userCount <= |allUser|
    ensures -1 <= r < Count(userCount)
    ensures r == -1 <==> user !in allUser[..Count(userCount)]
    ensures r >= 0 ==> allUser[r] == user && user !in allUser[..r]
    ensures r == IndexOf(allUser[..Count(userCount)], user)
  {
    var i := 0;
    while i < userCount
      invariant 0 <= i <= Count(userCount)
      invariant user !in allUser[..i]
    {
      if user == allUser[i] {
        assert allUser[..Count(userCount)][..i] == allUser[..i];
        return i;
      }
      i := i + 1;
    }
    assert allUser[..Count(userCount)] == allUser[..i];
    return -1;
  }

  /** What `send_message` returns and the records it writes. */
  datatype Sent = Sent(code: int, records: seq<Record>)

  /** `send_message` by the user with pid `sourcePid`, for the line read
      from `input`. The checks before the line is read hold for any input;
      at end of input `fgets` leaves `message` unwritten, and the records
      then sent are not specified. */
  method SendMessage(ret: int, allUser: seq<int>, userCount: int, sourcePid: int,
                     input: seq<char>, privateTarget: int) returns (r: Sent)
    requires userCount <= |allUser|
    ensures ret == COPY_ERR || ret == 0 ==> r == Sent(SEND_ERR, [])
    ensures sourcePid !in allUser[..Count(userCount)] ==> r == Sent(SEND_ERR, [])
    ensures r.code == SEND_ERR || r.code == SEND_SUCC
    ensures r.code == SEND_ERR ==> r.records == []
    ensures var line := FanOut.Line(input);
            |input| > 0 && r.code == SEND_SUCC && FanOut.IsPrivate(line) ==>
              && privateTarget in allUser[..Count(userCount)]
              && r.records == [Record(privateTarget, FanOut.PrivateText(line))]
    ensures var line := FanOut.Line(input);
            var n := Count(userCount);
            |input| > 0 && ret != COPY_ERR && ret != 0 && sourcePid in allUser[..n] ==>
              && (FanOut.IsPrivate(line) ==> (r.code == SEND_SUCC <==> privateTarget in allUser[..n]))
              && (!FanOut.IsPrivate(line) ==>
                    var src := IndexOf(allUser[..n], sourcePid);
                    && r.code == SEND_SUCC
                    && |r.records| == n - 1
                    && (forall j :: 0 <= j < src ==> r.records[j] == Record(allUser[j], line))
                    && (forall j :: src < j < n ==> r.records[j - 1] == Record(allUser[j], line)))
  {
    if ret == COPY_ERR || ret == 0 {
      return Sent(SEND_ERR, []);
    }
    var src := FindUserByPid(sourcePid, allUser, userCount);
    if src == -1 {
      return Sent(SEND_ERR, []);
    }
    var line := FanOut.Line(input);
    if FanOut.IsPrivate(line) {
      var des := FindUserByPid(privateTarget, allUser, userCount);
      if des == -1 {
        return Sent(SEND_ERR, []);
      }
      return Sent(SEND_SUCC, [Record(privateTarget, FanOut.PrivateText(line))]);
    }
    TruncateShort(line, MAX_MSG_LEN - 1);
    var text := Truncate(line, MAX_MSG_LEN - 1);
    var recs: seq<Record> := [];
    var i := 0;
    while i < userCount
      invariant 0 <= i <= Count(userCount)
      invariant |recs| == if i <= src then i else i - 1
      invariant forall j :: 0 <= j < i && j < src ==> recs[j] == Record(allUser[j], line)
      invariant forall j :: src < j < i ==> recs[j - 1] == Record(allUser[j], line)
    {
      if i != src {
        recs := recs + [Record(allUser[i], text)];
      }
      i := i + 1;
    }
    return Sent(SEND_SUCC, recs);
  }
}
