/**
 * The two string primitives of the JavaScript runtime that the object store's
 * text handling is built from, with their exact treatment of out-of-range and
 * negative positions: `String.prototype.indexOf(c, from)` and
 * `String.prototype.slice(start, end)`. Strings are sequences of characters.
 */
module JsText {

  /** The NUL character that separates records in tree and object texts. */
  const NUL: char := '\0'

  /** `s.indexOf(c, from)`: the first position at or after `from` (a negative
      `from` counts as 0) holding `c`, or -1 when there is none. */
  function IndexOf(s: string, c: char, from: int): (r: int)
    ensures r == -1 || (0 <= r < |s| && from <= r && s[r] == c)
    ensures r == -1 ==> forall i :: 0 <= i < |s| && from <= i ==> s[i] != c
    ensures r != -1 ==> forall i :: 0 <= i < r && from <= i ==> s[i] != c
    decreases |s| - from
  {
    if from < 0 then IndexOf(s, c, 0)
    else if from >= |s| then -1
    else if s[from] == c then from
    else IndexOf(s, c, from + 1)
  }

  /** How `slice` reads one of its arguments: a negative index counts from the
      end of the string, and the result is clamped to `0..len`. */
  function RelativeIndex(i: int, len: nat): (r: nat)
    ensures r <= len
    ensures 0 <= i <= len ==> r == i
    ensures i < 0 && -i <= len ==> r == len + i
  {
    if i < 0 then (if len + i < 0 then 0 else len + i)
    else if i > len then len
    else i
  }

  /** `s.slice(start, end)`: the characters between the two relative indices,
      or the empty string when they are out of order. */
  function Slice(s: string, start: int, end: int): (r: string)
    ensures 0 <= start <= end <= |s| ==> r == s[start..end]
    ensures |r| <= |s|
    ensures 0 <= start <= |s| && -|s| <= end < 0 && start <= |s| + end ==> r == s[start..|s| + end]
    ensures 0 <= start <= |s| && end < 0 && |s| + end <= start ==> r == []
    ensures 0 <= end <= start ==> r == []
  {
    var from, to := RelativeIndex(start, |s|), RelativeIndex(end, |s|);
    if from < to then s[from..to] else []
  }
}
