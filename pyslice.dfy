/** Python's slice bounds on sequences: `s[:i]` and `s[j:]` never fail.
    A negative bound counts from the end of the sequence, and every bound
    is then clamped into `[0, |s|]`. */
module PySlice {

  /** The position a Python slice bound `i` denotes in a sequence of length `n`. */
  function Clamp(i: int, n: nat): (k: nat)
    ensures k <= n
    ensures 0 <= i <= n ==> k == i
    ensures n < i ==> k == n
    ensures i < 0 && 0 <= n + i ==> k == n + i
    ensures n + i < 0 ==> k == 0
  {
    if i < 0 then (if n + i < 0 then 0 else n + i)
    else if i > n then n
    else i
  }

  /** `s[:i]`: always a prefix of `s`, and exactly `s[..i]` when `i` is in range. */
  function Take<T>(s: seq<T>, i: int): (r: seq<T>)
    ensures r <= s
    ensures 0 <= i <= |s| ==> r == s[..i]
    ensures |s| <= i ==> r == s
  {
    s[..Clamp(i, |s|)]
  }

  /** `s[j:]`: always a suffix of `s`, and exactly `s[j..]` when `j` is in range. */
  function Drop<T>(s: seq<T>, j: int): (r: seq<T>)
    ensures |r| <= |s| && r == s[|s| - |r|..]
    ensures 0 <= j <= |s| ==> r == s[j..]
    ensures |s| <= j ==> r == []
  {
    s[Clamp(j, |s|)..]
  }
}
