/** PHP's truthiness rules for the values the plugin tests with `if`, `!` and `?:`. */
module Php {
  import opened Wrappers

  /** A string is falsy exactly when it is "" or "0". */
  predicate StringTruthy(s: string) {
    s != "" && s != "0"
  }

  /**
   * A string-or-nothing value: missing array keys and `false` returns are None,
   * which PHP treats as falsy.
   */
  predicate Truthy(v: Option<string>) {
    v.Some? && StringTruthy(v.value)
  }

  /** `strpos($haystack, $c)`: the first index of c, or false. */
  function StrPos(haystack: string, c: char): (r: Option<nat>)
    ensures r.Some? ==> r.value < |haystack| && haystack[r.value] == c
    ensures r.Some? ==> forall j :: 0 <= j < r.value ==> haystack[j] != c
    ensures r.None? <==> c !in haystack
  {
    if haystack == [] then None
    else if haystack[0] == c then Some(0)
    else match StrPos(haystack[1..], c)
      case Some(i) => Some(i + 1)
      case None => None
  }

  /** An integer-or-false value as `if` sees it: false and 0 are falsy. */
  predicate IndexTruthy(v: Option<nat>) {
    v.Some? && v.value != 0
  }
}
