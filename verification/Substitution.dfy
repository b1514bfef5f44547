/** A loop that keeps replacing the first reference in a text by the text it stands for. */
module Substitution {
  import opened Loops
  import opened Graphs

  /** more: some reference is left. before, key, rest: the text before the first one, its name and
      the text after it. value: what a name stands for. keys: the names in a text. whole: texts
      whose references are complete, so that none forms across their end. */
  datatype Rules = Rules(more: string -> bool, before: string -> string, key: string -> string,
                         rest: string -> string, value: string -> string, keys: string -> set<string>,
                         whole: string -> bool)

  function Replacing(r: Rules): Loop<string> {
    Loop(r.more, s => if r.more(s) then r.before(s) + r.value(r.key(s)) + r.rest(s) else s)
  }

  ghost predicate PartsAt(r: Rules, s: string) {
    if r.more(s)
    then
      && |r.rest(s)| < |s| && r.whole(r.before(s)) && !r.more(r.before(s))
      && r.whole(r.before(s) + r.value(r.key(s)))
      && r.keys(s) == {r.key(s)} + r.keys(r.rest(s))
    else r.keys(s) == {}
  }

  ghost predicate Sound(r: Rules) {
    FromFront(Replacing(r), r.whole) && forall s :: PartsAt(r, s)
  }

  /** The names in what a name stands for. */
  function Next(r: Rules): string -> set<string> {
    k => r.keys(r.value(k))
  }

  lemma EndsBefore(r: Rules, s: string, n: nat)
    requires Sound(r) && r.more(s) && EndsIn(Replacing(r), s, n)
    ensures n > 0 && EndsIn(Replacing(r), r.value(r.key(s)), n - 1) && EndsIn(Replacing(r), r.rest(s), n - 1)
  {
    var l, a, v := Replacing(r), r.before(s), r.value(r.key(s));
    assert PartsAt(r, s);
    BothEnd(l, r.whole, a + v, r.rest(s), n - 1);
    BothEnd(l, r.whole, a, v, n - 1);
  }

  /** Every text s refers to is finished sooner. */
  lemma {:induction false} KeysEnd(r: Rules, s: string, n: nat, k: string)
    requires Sound(r) && EndsIn(Replacing(r), s, n) && k in r.keys(s)
    ensures n > 0 && EndsIn(Replacing(r), r.value(k), n - 1)
    decreases |s|
  {
    assert PartsAt(r, s);
    EndsBefore(r, s, n);
    if k == r.key(s) {
    } else {
      KeysEnd(r, r.rest(s), n - 1, k);
      IterateStays(Replacing(r), r.value(k), n - 2, n - 1);
    }
  }

  /** So chains of references are no longer than the loop. */
  lemma {:induction false} ChainsAreShort(r: Rules, s: string, n: nat, c: seq<string>)
    requires Sound(r) && EndsIn(Replacing(r), s, n) && Chain(Next(r), r.keys(s), c)
    ensures |c| <= n
    decreases |c|
  {
    if c == [] {
    } else {
      KeysEnd(r, s, n, c[0]);
      ChainsAreShort(r, r.value(c[0]), n - 1, c[1..]);
    }
  }

  /** Every name replaced by its text, the names in that text likewise, d texts deep. */
  function Full(r: Rules, s: string, d: nat): string
    decreases d, |s|
  {
    if !r.more(s) || |r.rest(s)| >= |s| then s
    else r.before(s) + (if d == 0 then "" else Full(r, r.value(r.key(s)), d - 1)) + Full(r, r.rest(s), d)
  }

  /** Plain text, a value and the rest are finished one after the other. */
  lemma ThreeInTurn(r: Rules, s: string, k: nat, m: nat)
    requires Sound(r) && r.more(s)
    requires EndsIn(Replacing(r), r.value(r.key(s)), k) && EndsIn(Replacing(r), r.rest(s), m)
    ensures EndsIn(Replacing(r), s, k + m + 1)
    ensures Iterate(Replacing(r), s, k + m + 1)
            == r.before(s) + Iterate(Replacing(r), r.value(r.key(s)), k) + Iterate(Replacing(r), r.rest(s), m)
  {
    var l, a, v := Replacing(r), r.before(s), r.value(r.key(s));
    assert PartsAt(r, s);
    FrontFirst(l, r.whole, a, 0, v, k);
    FrontFirst(l, r.whole, a + v, k, r.rest(s), m);
  }

  lemma ChainsBehind(r: Rules, s: string, d: nat)
    requires Sound(r) && r.more(s) && ShortChains(Next(r), r.keys(s), d)
    ensures d > 0 && ShortChains(Next(r), r.keys(r.value(r.key(s))), d - 1)
    ensures ShortChains(Next(r), r.keys(r.rest(s)), d)
  {
    assert PartsAt(r, s);
    ShorterBehind(Next(r), r.keys(s), d, r.key(s));
    FewerStarts(Next(r), r.keys(s), r.keys(r.rest(s)), d);
  }

  /** The loop reaches the full text in n iterations. */
  predicate ReachesFull(r: Rules, s: string, d: nat, n: nat) {
    EndsIn(Replacing(r), s, n) && Iterate(Replacing(r), s, n) == Full(r, s, d)
  }

  lemma FullOfParts(r: Rules, s: string, d: nat, k: nat, m: nat)
    requires Sound(r) && r.more(s) && d > 0
    requires ReachesFull(r, r.value(r.key(s)), d - 1, k) && ReachesFull(r, r.rest(s), d, m)
    ensures ReachesFull(r, s, d, k + m + 1)
  {
    assert PartsAt(r, s);
    ThreeInTurn(r, s, k, m);
  }

  /** With chains no longer than d the loop ends, in the text replaced d texts deep. */
  lemma {:induction false} EndsInFull(r: Rules, s: string, d: nat)
    requires Sound(r) && ShortChains(Next(r), r.keys(s), d)
    ensures exists n: nat :: ReachesFull(r, s, d, n)
    decreases d, |s|
  {
    assert PartsAt(r, s);
    if !r.more(s) {
      assert ReachesFull(r, s, d, 0);
    } else {
      ChainsBehind(r, s, d);
      EndsInFull(r, r.value(r.key(s)), d - 1);
      EndsInFull(r, r.rest(s), d);
      var k: nat :| ReachesFull(r, r.value(r.key(s)), d - 1, k);
      var m: nat :| ReachesFull(r, r.rest(s), d, m);
      FullOfParts(r, s, d, k, m);
    }
  }

  /** The loop ends on s exactly when no name that can be reached from s refers back to itself;
      live holds the names that lead on. */
  lemma EndsIffAcyclic(r: Rules, s: string, live: set<string>)
    requires Sound(r) && forall k | Next(r)(k) != {} :: k in live
    ensures Ends(Replacing(r), s) <==> !ReachesCycle(Next(r), r.keys(s))
  {
    AcyclicIffBounded(Next(r), r.keys(s), live);
    if ReachesCycle(Next(r), r.keys(s)) {
      forall n: nat ensures !EndsIn(Replacing(r), s, n) { LongChain(r, s, n); }
    } else {
      EndsInFull(r, s, |live| + 1);
    }
  }

  lemma LongChain(r: Rules, s: string, n: nat)
    requires Sound(r)
    ensures EndsIn(Replacing(r), s, n) ==> ShortChains(Next(r), r.keys(s), n)
  {
    if EndsIn(Replacing(r), s, n) {
      forall c | Chain(Next(r), r.keys(s), c) ensures |c| <= n { ChainsAreShort(r, s, n, c); }
    }
  }

  /** Whenever the loop is done its result is the text with every name replaced. */
  ghost predicate OnlyResult(l: Loop<string>, s: string, out: string) {
    forall n | EndsIn(l, s, n) :: Iterate(l, s, n) == out
  }

  lemma ResultIfAcyclic(r: Rules, s: string, live: set<string>)
    requires Sound(r) && forall k | Next(r)(k) != {} :: k in live
    ensures OnlyResult(Replacing(r), s, Full(r, s, |live| + 1))
  {
    forall n | EndsIn(Replacing(r), s, n) ensures Iterate(Replacing(r), s, n) == Full(r, s, |live| + 1) {
      EndsIffAcyclic(r, s, live);
      AcyclicIsShort(Next(r), r.keys(s), live);
      EndsInFull(r, s, |live| + 1);
      var m: nat :| ReachesFull(r, s, |live| + 1, m);
      SameEnd(Replacing(r), s, n, m);
    }
  }
}
