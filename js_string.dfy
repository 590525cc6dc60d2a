/** JavaScript's `String.prototype.slice` on a string modelled as `seq<char>`:
    a negative position counts from the end, positions are clamped to the
    string, and an empty range gives the empty string. */
module JsString {

  /** The position `slice` actually uses for argument `i` on a string of length `n`. */
  function Clamp(i: int, n: nat): (p: nat)
    ensures p <= n
    ensures 0 <= i <= n ==> p == i
    ensures i > n ==> p == n
    ensures i < 0 ==> p == (if n + i < 0 then 0 else n + i)
  {
    if i < 0 then (if n + i < 0 then 0 else n + i)
    else if i > n then n
    else i
  }

  /** `s.slice(b, e)` */
  function Slice(s: string, b: int, e: int): (r: string)
    ensures |r| <= |s|
    ensures 0 <= b <= e <= |s| ==> r == s[b..e]
    ensures 0 <= e <= b ==> r == []
  {
    var lo := Clamp(b, |s|);
    var hi := Clamp(e, |s|);
    if lo < hi then s[lo..hi] else []
  }

  /** `s.slice(b)` */
  function SliceFrom(s: string, b: int): (r: string)
    ensures |r| <= |s|
    ensures 0 <= b <= |s| ==> r == s[b..]
    ensures b >= |s| ==> r == []
  {
    Slice(s, b, |s|)
  }
}
