/** expandWindowsEnv: %VAR% segments replaced until fewer than two percent signs are left. */
module EnvExpansion {
  import opened LeafCodec
  import opened Loops
  import opened Graphs
  import opened Substitution

  type Env = map<string, string>

  /** os.Getenv: an unset variable is empty. */
  function Get(env: Env, key: string): string {
    if key in env then env[key] else ""
  }

  function Percents(s: string): nat {
    if s == "" then 0 else Percents(s[..|s| - 1]) + if s[|s| - 1] == '%' then 1 else 0
  }

  lemma {:induction false} PercentsConcat(a: string, b: string)
    ensures Percents(a + b) == Percents(a) + Percents(b)
  {
    if b == "" {
      assert a + b == a;
    } else {
      var n := |b| - 1;
      assert (a + b)[..|a + b| - 1] == a + b[..n];
      PercentsConcat(a, b[..n]);
    }
  }

  lemma {:induction false} NoPercent(s: string)
    ensures '%' !in s <==> Percents(s) == 0
  {
    if s == "" {
    } else {
      NoPercent(s[..|s| - 1]);
      assert s == s[..|s| - 1] + [s[|s| - 1]];
    }
  }

  lemma PercentsCut(s: string)
    requires '%' in s
    ensures Percents(s) == 1 + Percents(After(s, '%'))
  {
    var a, b := Before(s, '%'), After(s, '%');
    Cut(s, '%');
    PercentsConcat(a + ['%'], b);
    PercentsConcat(a, ['%']);
    NoPercent(a);
    assert ['%'][..0] == "";
  }

  predicate HasPair(s: string) {
    Percents(s) >= 2
  }

  /** What the two searches of an iteration find. */
  predicate Found(s: string) {
    '%' in s && '%' in After(s, '%')
  }

  lemma FoundIff(s: string)
    ensures HasPair(s) <==> Found(s)
  {
    NoPercent(s);
    if '%' in s {
      PercentsCut(s);
      NoPercent(After(s, '%'));
    }
  }

  /** What the first pair of percent signs encloses, and what follows it. */
  function Key(s: string): string
    requires HasPair(s)
  {
    FoundIff(s);
    Before(After(s, '%'), '%')
  }

  function Rest(s: string): (r: string)
    requires HasPair(s)
    ensures |r| < |s|
  {
    FoundIff(s);
    After(After(s, '%'), '%')
  }

  /** The names between successive pairs of percent signs. */
  function Keys(s: string): set<string>
    decreases |s|
  {
    if !HasPair(s) then {} else {Key(s)} + Keys(Rest(s))
  }

  predicate Even(s: string) {
    Percents(s) % 2 == 0
  }

  /** What the loop replaces. Text is whole when its percent signs pair off. */
  function EnvRules(env: Env): Rules {
    Rules(HasPair, s => Before(s, '%'), s => if HasPair(s) then Key(s) else "",
          s => if HasPair(s) then Rest(s) else s, k => Get(env, k), Keys, Even)
  }

  /** The loop of expandWindowsEnv. */
  function Expansion(env: Env): Loop<string> {
    Replacing(EnvRules(env))
  }

  /** One iteration. */
  function Expand1(s: string, env: Env): string
    requires HasPair(s)
  {
    Before(s, '%') + Get(env, Key(s)) + Rest(s)
  }

  lemma StepIsExpand1(s: string, env: Env)
    requires HasPair(s)
    ensures Expansion(env).more(s) && Expansion(env).step(s) == Expand1(s, env)
  {
  }

  // ---- counting percent signs -----------------------------------------------------------------

  lemma PercentsOfPair(s: string)
    requires HasPair(s)
    ensures Percents(s) == 2 + Percents(Rest(s)) && Percents(Before(s, '%')) == 0
  {
    FoundIff(s);
    PercentsCut(s);
    PercentsCut(After(s, '%'));
    NoPercent(Before(s, '%'));
  }

  lemma PercentsOfThree(a: string, v: string, r: string)
    ensures Percents(a + v + r) == Percents(a) + Percents(v) + Percents(r)
  {
    PercentsConcat(a + v, r);
    PercentsConcat(a, v);
  }

  lemma Expand1Counts(s: string, env: Env)
    requires HasPair(s)
    ensures Percents(Expand1(s, env)) == Percents(s) - 2 + Percents(Get(env, Key(s)))
  {
    PercentsOfPair(s);
    PercentsOfThree(Before(s, '%'), Get(env, Key(s)), Rest(s));
  }

  ghost predicate SmallValues(env: Env, most: nat) {
    forall k | k in env :: Percents(env[k]) <= most
  }

  lemma StepShrinks(s: string, env: Env)
    requires SmallValues(env, 1) && Expansion(env).more(s)
    ensures Percents(Expansion(env).step(s)) < Percents(s)
  {
    StepIsExpand1(s, env);
    Expand1Counts(s, env);
    assert Percents("") == 0;
  }

  /** If no value has more than one percent sign it ends on every input, after at most as many
      iterations as there are percent signs. */
  lemma EndsIfSmall(s: string, env: Env, n: nat)
    requires SmallValues(env, 1) && n >= Percents(s)
    ensures EndsIn(Expansion(env), s, n)
  {
    forall x | Expansion(env).more(x) ensures Percents(Expansion(env).step(x)) < Percents(x) {
      StepShrinks(x, env);
    }
    EndsByMeasure(Expansion(env), Percents, s, n);
  }

  // ---- values with an even number of percent signs ------------------------------------------

  /** Whatever a value refers to is then enclosed in the value itself. */
  ghost predicate EvenValues(env: Env) {
    forall k | k in env :: Even(env[k])
  }

  lemma AfterPrefix(s: string, c: char, t: string)
    requires c in s
    ensures c in s + t && Before(s + t, c) == Before(s, c) && After(s + t, c) == After(s, c) + t
  {
    var a, b := Before(s, c), After(s, c);
    Cut(s, c);
    assert s + t == a + [c] + (b + t);
    CutAt(a, c, b + t);
  }

  lemma PairStays(s: string, t: string)
    requires HasPair(s)
    ensures HasPair(s + t) && Key(s + t) == Key(s) && Rest(s + t) == Rest(s) + t
    ensures Before(s + t, '%') == Before(s, '%')
  {
    FoundIff(s);
    FoundIff(s + t);
    AfterPrefix(s, '%', t);
    AfterPrefix(After(s, '%'), '%', t);
  }

  lemma AfterPlain(p: string, s: string)
    requires '%' !in p && '%' in s
    ensures '%' in p + s && Before(p + s, '%') == p + Before(s, '%') && After(p + s, '%') == After(s, '%')
  {
    var a, b := Before(s, '%'), After(s, '%');
    Cut(s, '%');
    assert p + s == (p + a) + ['%'] + b;
    CutAt(p + a, '%', b);
  }

  /** Text without percent signs in front stays in front. */
  lemma PairBehind(p: string, s: string)
    requires '%' !in p
    ensures HasPair(p + s) <==> HasPair(s)
    ensures HasPair(s) ==> Key(p + s) == Key(s) && Rest(p + s) == Rest(s) && Before(p + s, '%') == p + Before(s, '%')
  {
    FoundIff(s);
    FoundIff(p + s);
    if '%' in s {
      AfterPlain(p, s);
    } else {
      assert '%' !in p + s;
    }
  }

  lemma Reassociate(a: string, b: string, c: string, t: string)
    ensures a + b + (c + t) == (a + b + c) + t && (t + a) + b + c == t + (a + b + c)
  {
  }

  /** A pair in front is expanded first, in place. */
  lemma ExpandFront(s: string, t: string, env: Env)
    requires HasPair(s)
    ensures HasPair(s + t) && Expand1(s + t, env) == Expand1(s, env) + t
  {
    PairStays(s, t);
    Reassociate(Before(s, '%'), Get(env, Key(s)), Rest(s), t);
  }

  lemma ExpandPlain(p: string, s: string, env: Env)
    requires '%' !in p && HasPair(s)
    ensures HasPair(p + s) && Expand1(p + s, env) == p + Expand1(s, env)
  {
    PairBehind(p, s);
    Reassociate(Before(s, '%'), Get(env, Key(s)), Rest(s), p);
  }

  lemma EvenPlain(s: string)
    requires Even(s) && !HasPair(s)
    ensures '%' !in s
  {
    NoPercent(s);
  }

  lemma Parity(before: nat, value: nat, after: nat)
    requires after == before - 2 + value && value % 2 == 0
    ensures after % 2 == before % 2
  {
  }

  lemma ExpandEven(s: string, env: Env)
    requires EvenValues(env) && HasPair(s)
    ensures Even(Expand1(s, env)) <==> Even(s)
  {
    var value := Get(env, Key(s));
    Expand1Counts(s, env);
    assert Even(value);
    Parity(Percents(s), Percents(value), Percents(Expand1(s, env)));
  }

  lemma EvenFront(s: string, t: string, env: Env)
    requires EvenValues(env)
    ensures FrontAt(Expansion(env), Even, s, t)
  {
    if Even(s) && HasPair(s) {
      ExpandFront(s, t, env);
      ExpandEven(s, env);
      StepIsExpand1(s, env);
      StepIsExpand1(s + t, env);
    } else if Even(s) {
      EvenPlain(s);
      PairBehind(s, t);
      if HasPair(t) {
        ExpandPlain(s, t, env);
        StepIsExpand1(t, env);
        StepIsExpand1(s + t, env);
      }
    }
  }

  lemma EvenParts(s: string, env: Env)
    requires EvenValues(env) && HasPair(s)
    ensures Even(Before(s, '%')) && Even(Before(s, '%') + Get(env, Key(s))) && !HasPair(Before(s, '%'))
  {
    PercentsOfPair(s);
    PercentsConcat(Before(s, '%'), Get(env, Key(s)));
    assert Even(Get(env, Key(s)));
  }

  lemma PartsFit(s: string, env: Env)
    requires EvenValues(env)
    ensures PartsAt(EnvRules(env), s)
  {
    if HasPair(s) { EvenParts(s, env); }
  }

  lemma RulesAreSound(env: Env)
    requires EvenValues(env)
    ensures Sound(EnvRules(env))
  {
    forall s, t ensures FrontAt(Replacing(EnvRules(env)), EnvRules(env).whole, s, t) { EvenFront(s, t, env); }
    forall s ensures PartsAt(EnvRules(env), s) { PartsFit(s, env); }
  }

  /** Some name in s, directly or through values, refers back to itself. */
  ghost predicate Circular(s: string, env: Env) {
    ReachesCycle(Next(EnvRules(env)), Keys(s))
  }

  lemma OnlySetNamesLead(env: Env)
    ensures forall k | Next(EnvRules(env))(k) != {} :: k in env.Keys
  {
  }

  /** With an even number of percent signs in every value the loop ends on s exactly when no
      name that can be reached from s refers back to itself. */
  lemma EndsIff(s: string, env: Env)
    requires EvenValues(env)
    ensures Ends(Expansion(env), s) <==> !Circular(s, env)
  {
    RulesAreSound(env);
    OnlySetNamesLead(env);
    EndsIffAcyclic(EnvRules(env), s, env.Keys);
  }

  /** Every name replaced by its value, the names in the value likewise. */
  function Expanded(s: string, env: Env): string {
    Full(EnvRules(env), s, |env.Keys| + 1)
  }

  lemma ResultIfSound(s: string, env: Env)
    requires Sound(EnvRules(env))
    ensures OnlyResult(Replacing(EnvRules(env)), s, Full(EnvRules(env), s, |env.Keys| + 1))
  {
    OnlySetNamesLead(env);
    ResultIfAcyclic(EnvRules(env), s, env.Keys);
  }

  /** Its result is then the text with every name replaced. */
  lemma ResultIsExpanded(s: string, env: Env)
    requires EvenValues(env)
    ensures OnlyResult(Expansion(env), s, Expanded(s, env))
  {
    RulesAreSound(env);
    ResultIfSound(s, env);
  }

  // ---- a loop without end -------------------------------------------------------------------

  lemma PairAt(a: string, k: string, r: string)
    requires '%' !in a && '%' !in k
    ensures var s := a + ['%'] + k + ['%'] + r;
            HasPair(s) && Before(s, '%') == a && Key(s) == k && Rest(s) == r
  {
    FoundIff(a + ['%'] + k + ['%'] + r);
    Regroup(a, '%', k, '%', r);
    CutAt(a, '%', k + ['%'] + r);
    CutAt(k, '%', r);
  }

  lemma Rejoin(pre: string, p: string, name: string, q: string, post: string)
    ensures pre + (p + ['%'] + name + ['%'] + q) + post == (pre + p) + ['%'] + name + ['%'] + (q + post)
  {
  }

  lemma StepAt(name: string, p: string, q: string, pre: string, post: string, env: Env)
    requires '%' !in name && '%' !in pre && Get(env, name) == p + ['%'] + name + ['%'] + q
    ensures var s := pre + ['%'] + name + ['%'] + post;
            && Expansion(env).more(s)
            && Expansion(env).step(s) == (pre + p) + ['%'] + name + ['%'] + (q + post)
  {
    PairAt(pre, name, post);
    StepIsExpand1(pre + ['%'] + name + ['%'] + post, env);
    Rejoin(pre, p, name, q, post);
  }

  lemma RoundAgain(name: string, p: string, q: string, y: string, env: Env)
    requires '%' !in name && '%' !in p && Get(env, name) == p + ['%'] + name + ['%'] + q && RefersFirst(y, name)
    ensures Expansion(env).more(y) && RefersFirst(Expansion(env).step(y), name)
  {
    var pre, post :| '%' !in pre && y == pre + ['%'] + name + ['%'] + post;
    StepAt(name, p, q, pre, post, env);
  }

  /** A variable whose value refers to itself keeps the loop going for ever, whatever else the
      value holds after the reference. */
  lemma SelfReferenceLoops(name: string, p: string, q: string, env: Env)
    requires '%' !in name && '%' !in p && name in env && env[name] == p + ['%'] + name + ['%'] + q
    ensures !Ends(Expansion(env), "%" + name + "%")
  {
    var refers := y => RefersFirst(y, name);
    forall y ensures GoesOn(Expansion(env), refers, y) {
      if RefersFirst(y, name) { RoundAgain(name, p, q, y, env); }
    }
    assert "" + ['%'] + name + ['%'] + "" == "%" + name + "%";
    forall n: nat ensures !EndsIn(Expansion(env), "%" + name + "%", n) {
      NeverEnds(Expansion(env), refers, "%" + name + "%", n);
    }
  }

  ghost predicate RefersFirst(s: string, name: string) {
    exists pre, post :: '%' !in pre && s == pre + ['%'] + name + ['%'] + post
  }

  // ---- the loop -----------------------------------------------------------------------------

  /** Its body: done when no pair of percent signs is left. */
  method ExpandOnce(s: string, env: Env) returns (done: bool, out: string)
    ensures done <==> !Expansion(env).more(s)
    ensures out == if done then s else Expansion(env).step(s)
  {
    FoundIff(s);
    if '%' !in s { return true, s; }
    var tail := After(s, '%');
    if '%' !in tail { return true, s; }
    var val := Get(env, Before(tail, '%'));
    StepIsExpand1(s, env);
    return false, Before(s, '%') + val + After(tail, '%');
  }

  /** Returns on exactly the inputs on which the iterations end, with their result; if all values
      have an even number of percent signs that is the text with every name replaced. */
  method ExpandWindowsEnv(s: string, env: Env) returns (out: string)
    requires Ends(Expansion(env), s)
    ensures Percents(out) <= 1
    ensures exists n: nat :: EndsIn(Expansion(env), s, n) && out == Iterate(Expansion(env), s, n)
    ensures EvenValues(env) ==> out == Expanded(s, env)
  {
    out := s;
    ghost var n: nat, last: nat :| n == 0 && EndsIn(Expansion(env), s, last);
    var done := false;
    while !done
      invariant Iterate(Expansion(env), s, n) == out && n <= last
      invariant done ==> EndsIn(Expansion(env), s, n)
      decreases last - n, !done
    {
      done, out := ExpandOnce(out, env);
      if !done {
        if n == last { assert false; }
        IterateMore(Expansion(env), s, n);
        n := n + 1;
      }
    }
    if EvenValues(env) {
      ResultIsExpanded(s, env);
    }
  }
}
