/**
 Small shared vocabulary for the page-script model: an optional value for the
 places where the script works with `null`, and the position of a character
 in a string (`String.prototype.indexOf` for a one-character needle).
 */
module Common {

  /** A JavaScript value that is either a string (or other payload) or `null`. */
  datatype Option<+T> = None | Some(value: T)

  /** Position of the first `c` in `s`, or `|s|` when there is none.
      (`indexOf` answers -1 in that case; `|s|` keeps the result a `nat`.) */
  function IndexOf(s: string, c: char): (k: nat)
    ensures k <= |s|
    ensures k < |s| ==> s[k] == c
    ensures forall i :: 0 <= i < k ==> s[i] != c
    ensures k == |s| <==> c !in s
  {
    if |s| == 0 then 0
    else if s[0] == c then 0
    else 1 + IndexOf(s[1..], c)
  }
}
