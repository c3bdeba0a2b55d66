/** The linear scan every variant uses to find a registered process. */
module Lookup {

  /** The lowest index holding `p`, or -1 when `p` is not in `pids`. */
  function IndexOf(pids: seq<int>, p: int): (r: int)
    ensures -1 <= r < |pids|
    ensures r == -1 <==> p !in pids
    ensures r >= 0 ==> pids[r] == p && p !in pids[..r]
  {
    if |pids| == 0 then -1
    else if pids[0] == p then 0
    else
      var k := IndexOf(pids[1..], p);
      assert pids == [pids[0]] + pids[1..];
      if k < 0 then -1
      else
        assert pids[..k + 1] == [pids[0]] + pids[1..][..k];
        k + 1
  }
}
