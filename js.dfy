/** The two JavaScript built-ins the watcher's logic relies on, with their
    ECMAScript semantics: `String.prototype.slice` and `Array.prototype.indexOf`. */
module Js {

  /** How `slice` turns an argument into a position: a negative index counts
      back from the end, and the result is clamped to `[0, len]`. */
  function ClampIndex(i: int, len: nat): (r: nat)
    ensures r <= len
    ensures 0 <= i <= len ==> r == i
    ensures -(len as int) <= i < 0 ==> r == len + i
  {
    if i < 0 then (if len + i < 0 then 0 else len + i)
    else if i > len then len
    else i
  }

  /** `s.slice(start, end)`: the characters between the two clamped positions,
      or the empty string when the end position does not lie after the start. */
  function Slice(s: string, start: int, end: int): (r: string)
    ensures |r| <= |s|
    ensures 0 <= start <= end <= |s| ==> r == s[start..end]
    ensures 0 <= end <= start ==> r == ""
  {
    var from := ClampIndex(start, |s|);
    var to := ClampIndex(end, |s|);
    if to <= from then "" else s[from..to]
  }

  /** `xs.indexOf(x)`: the position of the first element strictly equal to `x`,
      or -1 when there is none. */
  function IndexOf(xs: seq<string>, x: string): (r: int)
    ensures -1 <= r < |xs|
    ensures r == -1 <==> x !in xs
    ensures 0 <= r ==> xs[r] == x && x !in xs[..r]
  {
    if |xs| == 0 then -1
    else if xs[0] == x then 0
    else
      var k := IndexOf(xs[1..], x);
      if k == -1 then -1 else k + 1
  }

  /** A result of `slice` is always a contiguous piece of the string. */
  lemma SliceIsSubstring(s: string, start: int, end: int)
    ensures exists i, j :: 0 <= i <= j <= |s| && Slice(s, start, end) == s[i..j]
  {
    var from := ClampIndex(start, |s|);
    var to := ClampIndex(end, |s|);
    if to <= from {
      assert Slice(s, start, end) == s[from..from];
    } else {
      assert Slice(s, start, end) == s[from..to];
    }
  }

  /** A negative end position means "that many characters before the end"; one
      reaching back past the start of the string clamps to 0, which leaves
      nothing for a non-negative start. */
  lemma SliceNegativeEnd(s: string, start: int, k: nat)
    requires 0 < k
    ensures k <= |s| ==> Slice(s, start, -(k as int)) == Slice(s, start, |s| - k)
    ensures k > |s| && start >= 0 ==> Slice(s, start, -(k as int)) == ""
  {
  }
}
