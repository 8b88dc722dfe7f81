/**
  `Array.prototype.slice(start, end)` of ECMA-262 for integer arguments:
  a negative index counts back from the end of the array, every index is
  clamped into `[0, length]`, and an end at or before the start gives `[]`.
 */
module JsArray {

  function Min(a: int, b: int): int {
    if a <= b then a else b
  }

  function Max(a: int, b: int): int {
    if a <= b then b else a
  }

  /** Where `slice` resolves a relative index `i` in an array of length `len`. */
  function ResolveIndex(i: int, len: nat): (k: nat)
    ensures k <= len
    ensures 0 <= i ==> k == Min(i, len)
    ensures i < 0 ==> k + (-i) == len || (k == 0 && len <= -i)
  {
    if i < 0 then Max(len + i, 0) else Min(i, len)
  }

  /** `s.slice(start, end)`. */
  function Slice<T>(s: seq<T>, start: int, end: int): (r: seq<T>)
    ensures ResolveIndex(start, |s|) + |r| <= |s|
    ensures r == s[ResolveIndex(start, |s|) .. ResolveIndex(start, |s|) + |r|]
    ensures start <= end ==> |r| <= end - start
    ensures 0 <= start <= end ==> r == s[Min(start, |s|) .. Min(end, |s|)]
  {
    var lo := ResolveIndex(start, |s|);
    var hi := ResolveIndex(end, |s|);
    if hi <= lo then [] else s[lo..hi]
  }
}
