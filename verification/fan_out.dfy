/**
  The sending side of the linear-buffer chat client: a typed line becomes
  one private record (`@pid text`) or one record per other registered user,
  each written to the device as a `struct chat_message`. Which line was
  typed and which pid the process has are parameters; so is the table of
  child pids the menu process forked.
 */
module FanOut {
  import opened CString
  import opened Decimal
  import opened ChatCodes
  import opened LinearDevice

  /** The line `fgets(message, MAX_MSG_LEN, stdin)` and the newline strip
      leave in `message`, read from the pending input `input`: at most 255
      chars, ending before the first newline or NUL. `input` is what remains
      after `clear_input_buffer()` has discarded the rest of the menu's
      line. */
  function Line(input: seq<char>): (line: seq<char>)
    ensures |line| <= |input| && line == input[..|line|]
    ensures |line| < MAX_MSG_LEN && NUL !in line && '\n' !in line
    ensures |line| == MAX_MSG_LEN - 1 || |line| == |input| || input[|line|] == NUL || input[|line|] == '\n'
  {
    var n := if |input| < MAX_MSG_LEN - 1 then |input| else MAX_MSG_LEN - 1;
    var c := CStr(input[..n]);
    var line := CutAtNewline(c);
    assert input[..n][..|c|] == input[..|c|];
    line
  }

  predicate IsPrivate(line: seq<char>)
  {
    |line| > 0 && line[0] == '@'
  }

  /** What `sscanf(s, "%s", buf)` stores: leading white space is skipped,
      then the maximal run of non-space chars; with nothing but white space
      it stores nothing. */
  datatype Word = NoWord | Word(chars: seq<char>)

  function NonSpaceRun(s: seq<char>): (k: nat)
    ensures k <= |s| && forall i :: 0 <= i < k ==> !IsSpace(s[i])
    ensures k < |s| ==> IsSpace(s[k])
  {
    if |s| == 0 || IsSpace(s[0]) then 0 else 1 + NonSpaceRun(s[1..])
  }

  function ScanWord(s: seq<char>): (w: Word)
    ensures w.NoWord? <==> forall i :: 0 <= i < |s| ==> IsSpace(s[i])
    ensures w.Word? ==> |w.chars| > 0 && forall i :: 0 <= i < |w.chars| ==> !IsSpace(w.chars[i])
    ensures w.Word? ==>
              var i := SpaceRun(s);
              var e := i + |w.chars|;
              && e <= |s| && w.chars == s[i..e]
              && (e == |s| || IsSpace(s[e]))
  {
    var i := SpaceRun(s);
    if i == |s| then NoWord else Word(s[i..][..NonSpaceRun(s[i..])])
  }

  /** The target of a private line: `atoi` of its first word after the `@`.
      With no word the buffer `atoi` reads was never written, and
      `staleTarget` stands for whatever it held. */
  function PrivateTarget(line: seq<char>, staleTarget: int): (t: int)
    requires IsPrivate(line)
    ensures (forall i :: 1 <= i < |line| ==> IsSpace(line[i])) ==> t == staleTarget
    ensures (exists i :: 1 <= i < |line| && !IsSpace(line[i])) ==> t == Atoi(line[1..])
  {
    match ScanWord(line[1..])
    case NoWord => staleTarget
    case Word(w) =>
      WordAtoi(line[1..]);
      Atoi(w)
  }

  /** `atoi` of the first word is `atoi` of the whole text: white space is
      skipped alike, and the space that ends the word ends the digits too. */
  lemma WordAtoi(s: seq<char>)
    requires ScanWord(s).Word?
    ensures Atoi(ScanWord(s).chars) == Atoi(s)
  {
    var t := s[SpaceRun(s)..];
    AtoiSkipsSpace(s);
    AtoiCut(t, |ScanWord(s).chars|);
  }



  /** The content of a private line: the text after its first space, or
      nothing when it has none. */
  function PrivateText(line: seq<char>): (t: seq<char>)
    requires NUL !in line && |line| < MAX_MSG_LEN
    ensures ' ' !in line ==> t == []
    ensures ' ' in line ==> t == line[StrChr(line, ' ') + 1..]
  {
    var k := StrChr(line, ' ');
    if k == |line| then []
    else
      TruncateShort(line[k + 1..], MAX_MSG_LEN - 1);
      Truncate(line[k + 1..], MAX_MSG_LEN - 1)
  }

  /** The broadcast loop: one record for each table entry other than the
      sender's own pid, in table order, each carrying the line cut to 255
      chars. */
  function Broadcast(userpid: seq<int>, self: int, line: seq<char>): (recs: seq<Record>)
    ensures |recs| <= |userpid|
    ensures forall j :: 0 <= j < |recs| ==>
              && recs[j].target in userpid && recs[j].target != self
              && recs[j].text == Truncate(line, MAX_MSG_LEN - 1)
  {
    if |userpid| == 0 then []
    else
      var p := userpid[|userpid| - 1];
      var init := Broadcast(userpid[..|userpid| - 1], self, line);
      init + (if p != self then [Record(p, Truncate(line, MAX_MSG_LEN - 1))] else [])
  }

  /** `send_message`: the records the process `self` writes for the line it
      reads from `input`. */
  function SendMessage(userpid: seq<int>, self: int, input: seq<char>, staleTarget: int): (recs: seq<Record>)
    requires |input| > 0
    ensures forall j :: 0 <= j < |recs| ==>
              NUL !in recs[j].text && '\n' !in recs[j].text && |recs[j].text| < MAX_MSG_LEN
    ensures IsPrivate(Line(input)) ==>
              recs == [Record(PrivateTarget(Line(input), staleTarget), PrivateText(Line(input)))]
    ensures !IsPrivate(Line(input)) ==> recs == Broadcast(userpid, self, Line(input))
  {
    var line := Line(input);
    TruncateShort(line, MAX_MSG_LEN - 1);
    if IsPrivate(line) then [Record(PrivateTarget(line, staleTarget), PrivateText(line))]
    else Broadcast(userpid, self, line)
  }

  function Targets(recs: seq<Record>): (ts: seq<int>)
    ensures |ts| == |recs| && forall j :: 0 <= j < |recs| ==> ts[j] == recs[j].target
  {
    seq(|recs|, j requires 0 <= j < |recs| => recs[j].target)
  }

  /** Every other table entry gets as many records as it occurs in the
      table, and the sender gets none: a broadcast reaches each other user
      once when the table has no duplicates. */
  lemma {:induction false} BroadcastCounts(userpid: seq<int>, self: int, line: seq<char>, p: int)
    ensures multiset(Targets(Broadcast(userpid, self, line)))[p]
         == if p == self then 0 else multiset(userpid)[p]
    decreases |userpid|
  {
    if |userpid| > 0 {
      var init := userpid[..|userpid| - 1];
      var last := userpid[|userpid| - 1];
      BroadcastCounts(init, self, line, p);
      assert userpid == init + [last];
      var a := Broadcast(init, self, line);
      var b := if last != self then [Record(last, Truncate(line, MAX_MSG_LEN - 1))] else [];
      assert Broadcast(userpid, self, line) == a + b;
      TargetsSplit(a, b);
      assert multiset(userpid) == multiset(init) + multiset{last};
    }
  }

  lemma TargetsSplit(a: seq<Record>, b: seq<Record>)
    ensures multiset(Targets(a + b)) == multiset(Targets(a)) + multiset(Targets(b))
  {
    assert Targets(a + b) == Targets(a) + Targets(b);
  }

  /** The broadcast keeps table order: the records for two table halves are
      the records for the first half followed by those for the second. */
  lemma {:induction false} BroadcastSplits(a: seq<int>, b: seq<int>, self: int, line: seq<char>)
    ensures Broadcast(a + b, self, line) == Broadcast(a, self, line) + Broadcast(b, self, line)
    decreases |b|
  {
    if |b| == 0 {
      assert a + b == a;
    } else {
      var init := b[..|b| - 1];
      var p := b[|b| - 1];
      var x := if p != self then [Record(p, Truncate(line, MAX_MSG_LEN - 1))] else [];
      BroadcastSplits(a, init, self, line);
      assert (a + b)[..|a + b| - 1] == a + init;
      assert (a + b)[|a + b| - 1] == p;
      assert Broadcast(a + b, self, line) == Broadcast(a + init, self, line) + x;
      assert Broadcast(b, self, line) == Broadcast(init, self, line) + x;
    }
  }

  /** A line `@<pid> <text>` reaches `pid` alone, carrying `text`. */
  lemma PrivateRoundTrip(userpid: seq<int>, self: int, pid: nat, text: seq<char>, rest: seq<char>, staleTarget: int)
    requires NUL !in text && '\n' !in text
    requires |['@'] + Digits(pid) + [' '] + text| < MAX_MSG_LEN
    ensures SendMessage(userpid, self, ['@'] + Digits(pid) + [' '] + text + ['\n'] + rest, staleTarget)
         == [Record(pid, text)]
  {
    var d := Digits(pid);
    var line := ['@'] + d + [' '] + text;
    DigitsHaveNoNul(pid);
    assert NUL !in line && '\n' !in line;
    LineOfTerminated(line, rest);
    PrivateLineParts(pid, text);
  }

  /** A line typed with its newline is read back as itself. */
  lemma LineOfTerminated(line: seq<char>, rest: seq<char>)
    requires NUL !in line && '\n' !in line && |line| < MAX_MSG_LEN
    ensures Line(line + ['\n'] + rest) == line
  {
    var input := line + ['\n'] + rest;
    assert input[..|line|] == line;
    assert input[|line|] == '\n';
    var l := Line(input);
    assert l == input[..|l|];
  }

  /** `@<pid> <text>` names `pid` and carries `text`. */
  lemma PrivateLineParts(pid: nat, text: seq<char>)
    requires NUL !in text && |['@'] + Digits(pid) + [' '] + text| < MAX_MSG_LEN
    ensures var line := ['@'] + Digits(pid) + [' '] + text;
            && NUL !in line
            && (forall stale :: PrivateTarget(line, stale) == pid)
            && PrivateText(line) == text
  {
    DigitsHaveNoNul(pid);
    PrivateLineNames(pid, text);
    PrivateLineCarries(pid, text);
  }

  lemma PrivateLineNames(pid: nat, text: seq<char>)
    ensures forall stale :: PrivateTarget(['@'] + Digits(pid) + [' '] + text, stale) == pid
  {
    var d := Digits(pid);
    var line := ['@'] + d + [' '] + text;
    assert line[1..] == d + ([' '] + text);
    PrivateLineTarget(d, line[1..], [' '] + text);
    AtoiRoundTrip(pid, []);
    assert d + [] == d;
  }

  lemma PrivateLineCarries(pid: nat, text: seq<char>)
    requires NUL !in text && |['@'] + Digits(pid) + [' '] + text| < MAX_MSG_LEN
    ensures NUL !in ['@'] + Digits(pid) + [' '] + text
    ensures PrivateText(['@'] + Digits(pid) + [' '] + text) == text
  {
    var d := Digits(pid);
    DigitsHaveNoNul(pid);
    PrivateLineText(d, ['@'] + d + [' '] + text, text);
  }

  lemma PrivateLineTarget(d: seq<char>, s: seq<char>, rest: seq<char>)
    requires AllDigits(d) && |d| > 0 && s == d + rest && |rest| > 0 && IsSpace(rest[0])
    ensures ScanWord(s) == Word(d)
  {
    assert !IsSpace(s[0]);
    assert SpaceRun(s) == 0;
    assert s[0..] == s;
    NonSpaceDigits(d, rest);
  }

  lemma PrivateLineText(d: seq<char>, line: seq<char>, text: seq<char>)
    requires AllDigits(d) && line == ['@'] + d + [' '] + text
    ensures StrChr(line, ' ') == 1 + |d| && line[1 + |d| + 1..] == text
  {
    assert line[1 + |d|] == ' ';
    assert forall k :: 0 <= k < 1 + |d| ==> line[k] != ' ' by {
      forall k | 0 <= k < 1 + |d| ensures line[k] != ' ' {
        if k > 0 {
          assert line[k] == d[k - 1];
        }
      }
    }
    assert line[..1 + |d|] == ['@'] + d;
  }

  lemma {:induction false} NonSpaceDigits(d: seq<char>, rest: seq<char>)
    requires AllDigits(d) && |rest| > 0 && IsSpace(rest[0])
    ensures NonSpaceRun(d + rest) == |d| && (d + rest)[..|d|] == d
    decreases |d|
  {
    if |d| > 0 {
      assert (d + rest)[1..] == d[1..] + rest;
      NonSpaceDigits(d[1..], rest);
    } else {
      assert d + rest == rest;
    }
  }

  const SIGUSR1: int := 10
  const SIGUSR2: int := 12

  /** The signal the menu process sends, if any. */
  datatype Signal = NoSignal | Signal(pid: int, signo: int)

  /** The membership loop of `send_sig` and `read_sig` over the forked
      children's pids. */
  method IsRegistered(userpid: seq<int>, pid: int) returns (found: bool)
    ensures found <==> pid in userpid
  {
    found := false;
    var i := 0;
    while i < |userpid|
      invariant 0 <= i <= |userpid|
      invariant pid !in userpid[..i]
    {
      if userpid[i] == pid {
        found := true;
        break;
      }
      i := i + 1;
    }
    if !found {
      assert userpid[..i] == userpid;
    }
  }

  /** `send_sig`: asks child `pid` to send a message, if it is one. */
  method SendSig(userpid: seq<int>, pid: int) returns (s: Signal)
    ensures pid in userpid ==> s == Signal(pid, SIGUSR1)
    ensures pid !in userpid ==> s == NoSignal
  {
    var found := IsRegistered(userpid, pid);
    s := if found then Signal(pid, SIGUSR1) else NoSignal;
  }

  /** `read_sig`: asks child `pid` to read its messages, if it is one. */
  method ReadSig(userpid: seq<int>, pid: int) returns (s: Signal)
    ensures pid in userpid ==> s == Signal(pid, SIGUSR2)
    ensures pid !in userpid ==> s == NoSignal
  {
    var found := IsRegistered(userpid, pid);
    s := if found then Signal(pid, SIGUSR2) else NoSignal;
  }
}
