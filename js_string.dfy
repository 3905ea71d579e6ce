/**
 * JavaScript strings as the edit applicator sees them: a sequence of
 * characters, each standing for one UTF-16 code unit (which is what
 * `length`, offsets and `substring` count; texts whose characters all fit
 * in one code unit), and the ECMAScript `String.prototype.substring`,
 * which never fails: it clamps both indices into [0, length] and swaps them
 * when the start lies past the end.
 */
module JsString {

  /** An index clamped into the closed range [0, len]. */
  function Clamp(i: int, len: nat): (r: nat)
    ensures r <= len
    ensures 0 <= i <= len ==> r == i
    ensures i < 0 ==> r == 0
    ensures len < i ==> r == len
  {
    if i < 0 then 0 else if len < i then len else i
  }

  /** `s.substring(start, end)`. */
  function Substring(s: string, start: int, end: int): (r: string)
    ensures 0 <= start <= end <= |s| ==> r == s[start..end]
    ensures 0 <= end <= start <= |s| ==> r == s[end..start]
    ensures (|s| <= start && |s| <= end) || (start <= 0 && end <= 0) ==> r == []
    ensures |r| <= |s|
  {
    var a := Clamp(start, |s|);
    var b := Clamp(end, |s|);
    if a <= b then s[a..b] else s[b..a]
  }

  /** `s.substring(start)`: the end defaults to the length of `s`. */
  function SubstringFrom(s: string, start: int): (r: string)
    ensures 0 <= start <= |s| ==> r == s[start..]
    ensures |s| <= start ==> r == []
    ensures start <= 0 ==> r == s
  {
    Substring(s, start, |s|)
  }
}
