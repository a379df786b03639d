/** JavaScript's String.prototype.slice on a sequence of UTF-16 code units,
    as ECMA-262 (13th edition), section 22.1.3.21, defines it. */
module JsString {

  /** A relative index as `slice` resolves it against a string of length `len`:
      a negative index counts back from the end and stops at 0, a non-negative one
      stops at `len`. */
  function RelativeIndex(len: nat, k: int): (r: nat)
    ensures r <= len
  {
    if k < 0 then (if len + k < 0 then 0 else len + k)
    else if k < len then k
    else len
  }

  /** `s.slice(start, end)`: the code units from the resolved start up to the
      resolved end, or "" when the resolved start is not before the resolved end. */
  function Slice(s: string, start: int, end: int): string
  {
    var from := RelativeIndex(|s|, start);
    var to := RelativeIndex(|s|, end);
    if from < to then s[from..to] else []
  }

  /** How `slice` treats its indices. */
  lemma SliceProperties(s: string, start: int, end: int)
    ensures |Slice(s, start, end)| <= |s|
    // a slice is never longer than the window asked for
    ensures start <= end ==> |Slice(s, start, end)| <= end - start
    // inside the string, slice agrees with plain sub-sequence selection
    ensures 0 <= start <= end <= |s| ==> Slice(s, start, end) == s[start..end]
    // a positive end past the string is clamped at its length
    ensures 0 <= start <= |s| <= end ==> Slice(s, start, end) == s[start..]
    // negative indices count from the end, and stop at its beginning
    ensures start <= end < 0 && -|s| <= end ==>
              Slice(s, start, end) == s[if |s| + start < 0 then 0 else |s| + start..|s| + end]
    // a negative start, or a negative end, resolves to |s| plus it, and 0 below that
    ensures start < 0 ==>
              Slice(s, start, end) == Slice(s, if |s| + start < 0 then 0 else |s| + start, end)
    ensures end < 0 ==>
              Slice(s, start, end) == Slice(s, start, if |s| + end < 0 then 0 else |s| + end)
    // a window that ends at or before the point where it starts is empty
    ensures 0 <= end <= start ==> Slice(s, start, end) == []
  {
  }
}
