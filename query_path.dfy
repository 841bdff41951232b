/** The path the calendar pushes after its confirmation notice closes
    (src/components/Calendar/index.tsx, `onUpdateUrlAfterCloseToast`): the current path cut
    at its first `?`, computed with the string operations `indexOf` and `substring`. */
module QueryPath {

  /** `indexOf`: the position of the first `c` in `s`, or -1 when there is none. */
  function IndexOf(s: string, c: char): (r: int)
    ensures -1 <= r < |s|
    ensures r == -1 <==> c !in s
    ensures 0 <= r ==> s[r] == c && c !in s[..r]
  {
    if |s| == 0 then -1
    else if s[0] == c then 0
    else
      var k := IndexOf(s[1..], c);
      if k == -1 then -1
      else
        assert s[..k + 1] == [s[0]] + s[1..][..k];
        k + 1
  }

  /** A `substring` bound: negative values count as 0, values past the end as the length. */
  function ClampIndex(x: int, length: nat): (r: nat)
    ensures r <= length
    ensures 0 <= x <= length ==> r == x
  {
    if x < 0 then 0 else if x > length then length else x
  }

  /** `substring(start, end)`: both bounds clamped, and swapped when `start` exceeds `end`. */
  function Substring(s: string, start: int, end: int): (r: string)
    ensures 0 <= start <= end <= |s| ==> r == s[start..end]
    ensures 0 <= end <= start <= |s| ==> r == s[end..start]
    ensures end < 0 && 0 <= start <= |s| ==> r == s[..start]
  {
    var a, b := ClampIndex(start, |s|), ClampIndex(end, |s|);
    if a <= b then s[a..b] else s[b..a]
  }

  /** The path with its query string removed. A path with a `?` keeps what comes before its
      first `?`. A path without one gives the empty string, because the -1 from `indexOf`
      becomes 0 in `substring`. */
  function PathWithoutQueryParams(path: string): (r: string)
    ensures '?' in path ==> |r| < |path| && path[|r|] == '?' && path[..|r|] == r && '?' !in r
    ensures '?' !in path ==> r == ""
  {
    Substring(path, 0, IndexOf(path, '?'))
  }
}
