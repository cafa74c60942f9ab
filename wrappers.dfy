/** Python's `None`-or-value results (`re.search` returning `None`, a dict
    field that is `None` until set), and the leftmost of several such
    results (what `re.search` reports when a pattern is tried at each
    index in turn). */
module Wrappers {

  datatype Option<+T> = None | Some(value: T)

  /** The first `Some` of `ms` at index `from` or later. */
  function FirstSome<T>(ms: seq<Option<T>>, from: nat): Option<T>
    requires from <= |ms|
    decreases |ms| - from
  {
    if from == |ms| then None
    else if ms[from].Some? then ms[from]
    else FirstSome(ms, from + 1)
  }

  /** `FirstSome` finds nothing exactly when every entry from `from` on is
      `None`, and otherwise it returns entry `i`, the one that has only
      `None` before it. */
  lemma {:induction false} FirstSomeSpec<T>(ms: seq<Option<T>>, from: nat) returns (i: nat)
    requires from <= |ms|
    ensures FirstSome(ms, from).None? <==> forall k :: from <= k < |ms| ==> ms[k].None?
    ensures FirstSome(ms, from).Some? ==>
      from <= i < |ms| && ms[i] == FirstSome(ms, from) && forall j :: from <= j < i ==> ms[j].None?
    decreases |ms| - from
  {
    i := from;
    if from < |ms| && ms[from].None? {
      i := FirstSomeSpec(ms, from + 1);
    }
  }
}
