/** Python's built-in `min` and `max` on non-empty lists of integers. */
module Lists {

  /** `min(s)`: an element of s no greater than any other. */
  function Min(s: seq<int>): (r: int)
    requires |s| > 0
    ensures r in s && forall k | 0 <= k < |s| :: r <= s[k]
    ensures forall x | x in s :: r <= x
  {
    if |s| == 1 then s[0]
    else
      var m := Min(s[1..]);
      assert forall k | 1 <= k < |s| :: s[k] == s[1..][k - 1];
      if s[0] <= m then s[0] else m
  }

  /** `max(s)`: an element of s no smaller than any other. */
  function Max(s: seq<int>): (r: int)
    requires |s| > 0
    ensures r in s && forall k | 0 <= k < |s| :: s[k] <= r
    ensures forall x | x in s :: x <= r
  {
    if |s| == 1 then s[0]
    else
      var m := Max(s[1..]);
      assert forall k | 1 <= k < |s| :: s[k] == s[1..][k - 1];
      if s[0] >= m then s[0] else m
  }
}
