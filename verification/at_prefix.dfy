/**
  The device-side addressing rule of the wraparound and count-based chat
  devices: a payload starting with `@` names its target with a decimal pid
  read by `simple_strtol`, and the content is what follows the separating
  space; any other payload is a broadcast (target 0) of the whole text.
 */
module AtPrefix {
  import opened CString
  import opened Decimal

  /** The outcome of routing a payload: rejected (`-EINVAL`), or a target
      pid (0 = broadcast) and the content to store. */
  datatype Route = Invalid | Routed(target: int, content: seq<char>)

  /** The index in `str` at which `simple_strtol(str + 1, &endptr, 10)`
      leaves `endptr`. */
  function EndPtr(str: seq<char>): (e: nat)
    requires |str| > 0
    ensures var first := if |str| > 1 && str[1] == '-' then 2 else 1;
            && first <= e <= |str|
            && AllDigits(str[first..e])
            && (e < |str| ==> !IsDigit(str[e]))
  {
    var p := StrTol(str[1..]);
    var first := if |str| > 1 && str[1] == '-' then 2 else 1;
    var s1 := str[1..];
    assert first - 1 == if |s1| > 0 && s1[0] == '-' then 1 else 0;
    forall i | first <= i < 1 + p.stop
      ensures IsDigit(str[i])
    {
      assert str[i] == s1[first - 1..p.stop][i - first];
    }
    1 + p.stop
  }

  /** Routes the NUL-free payload `str`. When the digits run straight into
      the terminator the source's `memmove` copies from one byte past it, so
      the content is then `stale`, the caller-supplied picture of that
      memory, and is not otherwise determined. */
  function RoutePayload(str: seq<char>, stale: seq<char>): (r: Route)
    requires NUL !in str
    ensures (|str| == 0 || str[0] != '@') ==> r == Routed(0, str)
    ensures r.Invalid? <==>
              |str| > 0 && str[0] == '@' && EndPtr(str) < |str| && str[EndPtr(str)] != ' '
    ensures r.Routed? && |str| > 0 && str[0] == '@' ==>
              && r.target == ToInt32(StrTol(str[1..]).value)
              && (EndPtr(str) < |str| ==> str[EndPtr(str)] == ' ' && r.content == str[EndPtr(str) + 1..])
              && (EndPtr(str) == |str| ==> r.content == stale)
  {
    if |str| == 0 || str[0] != '@' then Routed(0, str)
    else
      var p := StrTol(str[1..]);
      var e := 1 + p.stop;
      if e < |str| && str[e] != ' ' then Invalid
      else if e < |str| then Routed(ToInt32(p.value), str[e + 1..])
      else Routed(ToInt32(p.value), stale)
  }

  /** The payload a sender writes to address `content` privately to `pid`. */
  function PrivatePayload(pid: nat, content: seq<char>): seq<char>
  {
    ['@'] + Digits(pid) + [' '] + content
  }

  /** Routing inverts `PrivatePayload` for every pid a `pid_t` can hold. */
  lemma RoutePrivateRoundTrip(pid: nat, content: seq<char>, stale: seq<char>)
    requires pid <= INT32_MAX && NUL !in content
    ensures NUL !in PrivatePayload(pid, content)
    ensures RoutePayload(PrivatePayload(pid, content), stale) == Routed(pid, content)
  {
    var d := Digits(pid);
    var str := PrivatePayload(pid, content);
    DigitsHaveNoNul(pid);
    assert str[1..] == d + ([' '] + content);
    StrTolRoundTrip(pid, [' '] + content);
    assert str[1 + |d|] == ' ';
    assert str[1 + |d| + 1..] == content;
    ToInt32Identity(pid);
  }

  /** A pid followed by anything but a space or the end is rejected,
      e.g. `"@12x"`; so is a non-digit right after the `@`, e.g. `"@abc"`. */
  lemma RouteRejectsGlued(pid: nat, c: char, rest: seq<char>, stale: seq<char>)
    requires NUL !in rest && c != NUL && c != ' ' && !IsDigit(c)
    ensures RoutePayload(['@'] + Digits(pid) + [c] + rest, stale) == Invalid
    ensures c != '-' ==> RoutePayload(['@', c] + rest, stale) == Invalid
  {
    RejectsAfterDigits(pid, c, rest, stale);
    if c != '-' {
      RejectsWithoutDigits(c, rest, stale);
    }
  }

  lemma RejectsAfterDigits(pid: nat, c: char, rest: seq<char>, stale: seq<char>)
    requires NUL !in rest && c != NUL && c != ' ' && !IsDigit(c)
    ensures RoutePayload(['@'] + Digits(pid) + [c] + rest, stale) == Invalid
  {
    var d := Digits(pid);
    var str := ['@'] + d + [c] + rest;
    DigitsHaveNoNul(pid);
    assert str[1..] == d + ([c] + rest);
    StrTolRoundTrip(pid, [c] + rest);
    assert str[1 + |d|] == c;
  }

  lemma RejectsWithoutDigits(c: char, rest: seq<char>, stale: seq<char>)
    requires NUL !in rest && c != NUL && c != ' ' && c != '-' && !IsDigit(c)
    ensures RoutePayload(['@', c] + rest, stale) == Invalid
  {
    var glued := ['@', c] + rest;
    assert glued[1..] == [c] + rest;
    assert StrTol(glued[1..]).stop == 0;
  }

  /** An `@` followed directly by a space or the end names no digits, and
      the source accepts it as a broadcast (`simple_strtol` yields 0). */
  lemma RouteBareAt(content: seq<char>, stale: seq<char>)
    requires NUL !in content
    ensures RoutePayload(['@', ' '] + content, stale) == Routed(0, content)
    ensures RoutePayload(['@'], stale) == Routed(0, stale)
  {
    var str := ['@', ' '] + content;
    assert str[1..] == [' '] + content;
    assert StrTol(str[1..]).stop == 0;
    assert str[2..] == content;
    assert ['@'][1..] == [];
  }
}
