/** A loop that rewrites a value until there is nothing more to do. */
module Loops {
  datatype Loop<!T> = Loop(more: T -> bool, step: T -> T)

  /** n iterations, or fewer if the loop ends before. */
  function Iterate<T>(l: Loop<T>, x: T, n: nat): T
    decreases n
  {
    if n == 0 || !l.more(x) then x else Iterate(l, l.step(x), n - 1)
  }

  predicate EndsIn<T>(l: Loop<T>, x: T, n: nat) {
    !l.more(Iterate(l, x, n))
  }

  ghost predicate Ends<T(!new)>(l: Loop<T>, x: T) {
    exists n: nat :: EndsIn(l, x, n)
  }

  lemma {:induction false} IterateMore<T>(l: Loop<T>, x: T, n: nat)
    requires !EndsIn(l, x, n)
    ensures Iterate(l, x, n + 1) == l.step(Iterate(l, x, n))
    decreases n
  {
    if n == 0 || !l.more(x) {
    } else {
      IterateMore(l, l.step(x), n - 1);
    }
  }

  lemma {:induction false} IterateStays<T>(l: Loop<T>, x: T, n: nat, m: nat)
    requires EndsIn(l, x, n) && n <= m
    ensures Iterate(l, x, m) == Iterate(l, x, n)
    decreases n
  {
    if n == 0 || !l.more(x) {
    } else {
      IterateStays(l, l.step(x), n - 1, m - 1);
    }
  }

  lemma SameEnd<T>(l: Loop<T>, x: T, n: nat, m: nat)
    requires EndsIn(l, x, n) && EndsIn(l, x, m)
    ensures Iterate(l, x, n) == Iterate(l, x, m)
  {
    if n <= m { IterateStays(l, x, n, m); } else { IterateStays(l, x, m, n); }
  }

  /** A loop whose steps lower a measure ends within the measure. */
  lemma {:induction false} EndsByMeasure<T(!new)>(l: Loop<T>, size: T -> nat, x: T, n: nat)
    requires n >= size(x) && forall y | l.more(y) :: size(l.step(y)) < size(y)
    ensures EndsIn(l, x, n)
    decreases n
  {
    if !l.more(x) {
    } else {
      EndsByMeasure(l, size, l.step(x), n - 1);
    }
  }

  ghost predicate GoesOn<T>(l: Loop<T>, p: T -> bool, x: T) {
    p(x) ==> l.more(x) && p(l.step(x))
  }

  lemma {:induction false} NeverEnds<T(!new)>(l: Loop<T>, p: T -> bool, x: T, n: nat)
    requires p(x) && forall y :: GoesOn(l, p, y)
    ensures !EndsIn(l, x, n)
    decreases n
  {
    assert GoesOn(l, p, x);
    if n == 0 {
    } else {
      NeverEnds(l, p, l.step(x), n - 1);
    }
  }

  // ---- loops that work from the front ---------------------------------------------------------

  /** s, if of this kind, is worked on in place whatever follows it, and stays of the kind; once
      it is finished the loop goes on with what follows. */
  ghost predicate FrontAt<T>(l: Loop<seq<T>>, kind: seq<T> -> bool, s: seq<T>, t: seq<T>) {
    kind(s) ==>
      if l.more(s) then l.more(s + t) && l.step(s + t) == l.step(s) + t && kind(l.step(s))
      else (l.more(s + t) <==> l.more(t)) && (l.more(t) ==> l.step(s + t) == s + l.step(t))
  }

  ghost predicate FromFront<T(!new)>(l: Loop<seq<T>>, kind: seq<T> -> bool) {
    forall s, t :: FrontAt(l, kind, s, t)
  }

  /** So the loop does what it does on the front alone, then what it does on the rest alone. */
  lemma {:induction false} FrontFirst<T(!new)>(l: Loop<seq<T>>, kind: seq<T> -> bool,
                                               s: seq<T>, m: nat, t: seq<T>, k: nat)
    requires FromFront(l, kind) && kind(s) && EndsIn(l, s, m) && EndsIn(l, t, k)
    ensures EndsIn(l, s + t, m + k) && Iterate(l, s + t, m + k) == Iterate(l, s, m) + Iterate(l, t, k)
    decreases m + k
  {
    assert FrontAt(l, kind, s, t);
    if l.more(s) {
      FrontFirst(l, kind, l.step(s), m - 1, t, k);
    } else if l.more(t) {
      FrontFirst(l, kind, s, m, l.step(t), k - 1);
    } else {
    }
  }

  /** And it ends on the whole only if it does on both parts. */
  lemma {:induction false} BothEnd<T(!new)>(l: Loop<seq<T>>, kind: seq<T> -> bool, s: seq<T>, t: seq<T>, n: nat)
    requires FromFront(l, kind) && kind(s) && EndsIn(l, s + t, n)
    ensures EndsIn(l, s, n) && EndsIn(l, t, n)
    decreases n
  {
    assert FrontAt(l, kind, s, t);
    if l.more(s) {
      BothEnd(l, kind, l.step(s), t, n - 1);
      IterateStays(l, t, n - 1, n);
    } else if l.more(t) {
      BothEnd(l, kind, s, l.step(t), n - 1);
    } else {
    }
  }
}
