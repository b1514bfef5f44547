/** Chains of references from name to name, and when they end. */
module Graphs {
  /** c starts at one of the names in from and goes on along next. */
  predicate Chain<N(==)>(next: N -> set<N>, from: set<N>, c: seq<N>)
    decreases |c|
  {
    c == [] || (c[0] in from && Chain(next, next(c[0]), c[1..]))
  }

  /** Some name reachable from these leads back to itself, through however many others. */
  ghost predicate ReachesCycle<N(!new)>(next: N -> set<N>, from: set<N>) {
    exists c, i, j :: Chain(next, from, c) && 0 <= i < j < |c| && c[i] == c[j]
  }

  ghost predicate ShortChains<N(!new)>(next: N -> set<N>, from: set<N>, most: nat) {
    forall c | Chain(next, from, c) :: |c| <= most
  }

  lemma {:induction false} ChainPrefix<N>(next: N -> set<N>, from: set<N>, c: seq<N>, n: nat)
    requires Chain(next, from, c) && n <= |c|
    ensures Chain(next, from, c[..n])
    decreases n
  {
    if n == 0 {
    } else {
      ChainPrefix(next, next(c[0]), c[1..], n - 1);
      assert c[..n][1..] == c[1..][..n - 1];
    }
  }

  lemma {:induction false} ChainSuffix<N>(next: N -> set<N>, from: set<N>, c: seq<N>, i: nat)
    requires Chain(next, from, c) && i < |c|
    ensures Chain(next, next(c[i]), c[i + 1..])
    decreases i
  {
    if i == 0 {
    } else {
      ChainSuffix(next, next(c[0]), c[1..], i - 1);
      assert c[1..][i..] == c[i + 1..];
    }
  }

  /** A chain may go on with whatever goes on from its last name. */
  lemma {:induction false} ChainJoin<N>(next: N -> set<N>, from: set<N>, c: seq<N>, d: seq<N>)
    requires Chain(next, from, c) && c != [] && Chain(next, next(c[|c| - 1]), d)
    ensures Chain(next, from, c + d)
    decreases |c|
  {
    assert (c + d)[1..] == c[1..] + d;
    if |c| == 1 {
      assert c[1..] + d == d;
    } else {
      ChainJoin(next, next(c[0]), c[1..], d);
    }
  }

  /** Going round once more. */
  lemma Pump<N>(next: N -> set<N>, from: set<N>, c: seq<N>, i: nat, j: nat)
    requires Chain(next, from, c) && i < j < |c| && c[i] == c[j]
    ensures var d := c[..j + 1] + c[i + 1..];
            Chain(next, from, d) && |d| > |c| && d[i] == d[j]
  {
    ChainPrefix(next, from, c, j + 1);
    ChainSuffix(next, from, c, i);
    ChainJoin(next, from, c[..j + 1], c[i + 1..]);
  }

  lemma {:induction false} CycleIsLong<N(!new)>(next: N -> set<N>, from: set<N>, c: seq<N>, i: nat, j: nat, n: nat)
    requires Chain(next, from, c) && i < j < |c| && c[i] == c[j]
    ensures !ShortChains(next, from, n)
    decreases n - |c|
  {
    if |c| > n {
    } else {
      Pump(next, from, c, i, j);
      CycleIsLong(next, from, c[..j + 1] + c[i + 1..], i, j, n);
    }
  }

  lemma ChainGoesOn<N>(next: N -> set<N>, from: set<N>, c: seq<N>, i: nat)
    requires Chain(next, from, c) && i + 1 < |c|
    ensures next(c[i]) != {}
  {
    ChainSuffix(next, from, c, i);
    assert c[i + 1..][0] in next(c[i]);
  }

  lemma {:induction false} DistinctSize<N>(c: seq<N>, names: set<N>)
    requires forall i | 0 <= i < |c| :: c[i] in names
    requires forall i, j | 0 <= i < j < |c| :: c[i] != c[j]
    ensures |c| <= |names|
  {
    if c == [] {
    } else {
      var n := |c| - 1;
      DistinctSize(c[..n], names - {c[n]});
    }
  }

  /** Without a cycle a chain has at most one name more than there are names that lead on. */
  lemma AcyclicIsShort<N(!new)>(next: N -> set<N>, from: set<N>, live: set<N>)
    requires !ReachesCycle(next, from) && forall k | next(k) != {} :: k in live
    ensures ShortChains(next, from, |live| + 1)
  {
    forall c | Chain(next, from, c) ensures |c| <= |live| + 1 {
      if c != [] {
        var d := c[..|c| - 1];
        forall i | 0 <= i < |d| ensures d[i] in live { ChainGoesOn(next, from, c, i); }
        DistinctSize(d, live);
      }
    }
  }

  /** A cycle is what makes chains of every length. */
  lemma AcyclicIffBounded<N(!new)>(next: N -> set<N>, from: set<N>, live: set<N>)
    requires forall k | next(k) != {} :: k in live
    ensures !ReachesCycle(next, from) <==> exists n :: ShortChains(next, from, n)
    ensures !ReachesCycle(next, from) ==> ShortChains(next, from, |live| + 1)
  {
    if ReachesCycle(next, from) {
      var c, i, j :| Chain(next, from, c) && 0 <= i < j < |c| && c[i] == c[j];
      forall n ensures !ShortChains(next, from, n) { CycleIsLong(next, from, c, i, j, n); }
    } else {
      AcyclicIsShort(next, from, live);
    }
  }

  lemma ShorterBehind<N(!new)>(next: N -> set<N>, from: set<N>, d: nat, k: N)
    requires ShortChains(next, from, d) && k in from
    ensures d > 0 && ShortChains(next, next(k), d - 1)
  {
    assert Chain(next, from, [k]);
    forall c | Chain(next, next(k), c) ensures |c| <= d - 1 {
      assert ([k] + c)[1..] == c;
      assert Chain(next, from, [k] + c);
    }
  }

  lemma FewerStarts<N(!new)>(next: N -> set<N>, from: set<N>, part: set<N>, d: nat)
    requires ShortChains(next, from, d) && part <= from
    ensures ShortChains(next, part, d)
  {
    forall c | Chain(next, part, c) ensures |c| <= d {
      assert Chain(next, from, c);
    }
  }
}
