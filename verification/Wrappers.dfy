/** What may be absent, and the first occurrence of an element. */
module Wrappers {

  datatype Option<+T> = None | Some(value: T)

  function Find<T(==)>(s: seq<T>, x: T): (r: Option<nat>)
    ensures r.Some? ==> r.value < |s| && s[r.value] == x && forall i :: 0 <= i < r.value ==> s[i] != x
    ensures r.None? ==> x !in s
  {
    if s == [] then None
    else if s[0] == x then Some(0)
    else
      var r := Find(s[1..], x);
      if r.None? then None else Some(r.value + 1)
  }

  lemma {:induction false} FindFirst<T>(s: seq<T>, x: T, k: nat)
    requires k < |s| && s[k] == x && forall i :: 0 <= i < k ==> s[i] != x
    ensures Find(s, x) == Some(k)
  {
    if k > 0 {
      FindFirst(s[1..], x, k - 1);
    }
  }
}
