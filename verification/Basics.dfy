/** What several modules share. */
module Basics {
  datatype Option<T> = None | Some(value: T)

  function Min(a: nat, b: nat): nat {
    if a <= b then a else b
  }

  /** The rows f full batches hold. */
  function Filled(f: nat, n: nat): (r: nat)
  {
    if f == 0 then 0 else Filled(f - 1, n) + n
  }

  lemma {:induction false} FilledTimes(f: nat, n: nat)
    ensures Filled(f, n) == f * n
  {
    if f == 0 {
    } else {
      FilledTimes(f - 1, n);
    }
  }

  lemma SubsetSize<T>(a: set<T>, b: set<T>)
    requires a <= b
    ensures |a| <= |b|
  {
    assert b == a + (b - a);
  }
}
