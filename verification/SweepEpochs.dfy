/** kb enrich sweep: one epoch per registry entry, handed from pass to pass in a global. */
module SweepEpochs {
  import opened Basics

  /** Epochs start at 1; none is negative. */
  datatype Source = Source(app: string, epoch: nat)

  type Sources = seq<Source>

  /** What happens to one cache directory or archive of an entry. BeginFails: no source row;
      IndexFails: the row is there but the pass reports an error. */
  datatype Fate = Missing | ExtractFails | BeginFails | IndexFails | Indexed

  /** A pass that got a source row. */
  datatype Pass = Pass(epoch: int, ok: bool)

  datatype Entry = Entry(app: string, dirs: seq<Fate>)

  /** COALESCE(MAX(epoch), 0) */
  function MaxEpoch(rows: Sources, app: string): (m: nat)
    ensures forall i | 0 <= i < |rows| && rows[i].app == app :: rows[i].epoch <= m
  {
    if rows == [] then 0
    else
      var n := |rows| - 1;
      var m := MaxEpoch(rows[..n], app);
      assert forall i | 0 <= i < n :: rows[..n][i] == rows[i];
      if rows[n].app == app && rows[n].epoch > m then rows[n].epoch else m
  }

  /** It is an epoch of the app, or 0 for an app without rows. */
  lemma {:induction false} MaxIsAttained(rows: Sources, app: string)
    ensures if exists i | 0 <= i < |rows| :: rows[i].app == app
            then exists i | 0 <= i < |rows| :: rows[i].app == app && rows[i].epoch == MaxEpoch(rows, app)
            else MaxEpoch(rows, app) == 0
  {
    if rows == [] {
    } else {
      var n := |rows| - 1;
      MaxIsAttained(rows[..n], app);
      assert forall i | 0 <= i < n :: rows[..n][i] == rows[i];
    }
  }

  predicate HasRow(rows: Sources, app: string, epoch: int) {
    epoch >= 0 && Source(app, epoch) in rows
  }

  /** The first pass that succeeded, or their number. */
  function FirstOk(passes: seq<Pass>): (f: nat)
    ensures f <= |passes|
    ensures f < |passes| ==> passes[f].ok
    ensures forall i | 0 <= i < f :: !passes[i].ok
  {
    if passes == [] then 0
    else
      var n := |passes| - 1;
      var f := FirstOk(passes[..n]);
      assert forall i | 0 <= i < n :: passes[..n][i] == passes[i];
      if f < n then f else if passes[n].ok then n else n + 1
  }

  /** What an entry's passes look like when its app's highest epoch was m: m + 1, m + 2, ...
      until one succeeds, and that one's epoch from then on. */
  predicate OneEpoch(passes: seq<Pass>, m: int) {
    forall i | 0 <= i < |passes| :: passes[i].epoch == m + 1 + Min(i, FirstOk(passes))
  }

  lemma MaxEpochAppend(rows: Sources, r: Source, app: string)
    ensures MaxEpoch(rows + [r], app)
            == if r.app == app && r.epoch > MaxEpoch(rows, app) then r.epoch else MaxEpoch(rows, app)
  {
    assert (rows + [r])[..|rows|] == rows;
  }

  lemma FirstOkAppend(passes: seq<Pass>, p: Pass)
    ensures FirstOk(passes + [p])
            == if FirstOk(passes) < |passes| then FirstOk(passes) else if p.ok then |passes| else |passes| + 1
  {
    assert (passes + [p])[..|passes|] == passes;
  }

  /** Which directories of an entry reach the catalog, and whether their pass succeeds. */
  function Attempts(dirs: seq<Fate>): seq<bool> {
    if dirs == [] then []
    else
      var d := dirs[|dirs| - 1];
      Attempts(dirs[..|dirs| - 1]) + if d.IndexFails? || d.Indexed? then [d.Indexed?] else []
  }

  function Oks(passes: seq<Pass>): (oks: seq<bool>)
    ensures |oks| == |passes| && forall i | 0 <= i < |passes| :: oks[i] == passes[i].ok
  {
    seq(|passes|, i requires 0 <= i < |passes| => passes[i].ok)
  }

  lemma OksAppend(passes: seq<Pass>, p: Pass)
    ensures Oks(passes + [p]) == Oks(passes) + [p.ok] && Oks(passes) == Oks(passes) + []
  {
  }

  lemma AttemptsStep(dirs: seq<Fate>, i: nat)
    requires i < |dirs|
    ensures Attempts(dirs[..i + 1])
            == Attempts(dirs[..i]) + if dirs[i].IndexFails? || dirs[i].Indexed? then [dirs[i].Indexed?] else []
  {
    assert dirs[..i + 1][..i] == dirs[..i];
  }

  /** How many new epochs they took. */
  function Used(passes: seq<Pass>): nat {
    Min(|passes|, FirstOk(passes) + 1)
  }

  /** One entry's share of a sweep: the highest epoch of its app when it began, and its passes. */
  datatype Share = Share(app: string, base: int, passes: seq<Pass>)

  /** The global after these passes. */
  function Reused(passes: seq<Pass>, m: int): int {
    if FirstOk(passes) < |passes| then m + 1 + FirstOk(passes) else 0
  }

  lemma PassOn(passes: seq<Pass>, m: int, p: Pass)
    requires m >= 0 && OneEpoch(passes, m)
    requires p.epoch == if Reused(passes, m) > 0 then Reused(passes, m) else m + Used(passes) + 1
    ensures OneEpoch(passes + [p], m)
    ensures Reused(passes + [p], m) == if Reused(passes, m) > 0 then Reused(passes, m) else if p.ok then p.epoch else 0
    ensures Used(passes + [p]) == if Reused(passes, m) > 0 then Used(passes) else Used(passes) + 1
    ensures Reused(passes, m) > 0 ==> Reused(passes, m) == m + Used(passes)
  {
    FirstOkAppend(passes, p);
  }

  /** Entries in order, each above what earlier entries of its app took and above before. */
  ghost predicate Apart(log: seq<Share>, before: Sources) {
    && (forall i | 0 <= i < |log| ::
          OneEpoch(log[i].passes, log[i].base) && log[i].base >= MaxEpoch(before, log[i].app))
    && (forall i, j | 0 <= j < i < |log| && log[i].app == log[j].app ::
          log[i].base >= log[j].base + Used(log[j].passes))
  }

  ghost predicate Covered(log: seq<Share>, rows: Sources) {
    forall i | 0 <= i < |log| :: MaxEpoch(rows, log[i].app) >= log[i].base + Used(log[i].passes)
  }

  /** After some entries of a sweep that began with before: no app has lost an epoch. */
  ghost predicate SweptUpTo(log: seq<Share>, before: Sources, rows: Sources) {
    && Apart(log, before) && Covered(log, rows)
    && forall a :: MaxEpoch(rows, a) >= MaxEpoch(before, a)
  }

  lemma NextEntry(log: seq<Share>, before: Sources, rows: Sources, rows': Sources, s: Share)
    requires SweptUpTo(log, before, rows)
    requires OneEpoch(s.passes, s.base) && s.base == MaxEpoch(rows, s.app)
    requires MaxEpoch(rows', s.app) == s.base + Used(s.passes)
    requires forall a | a != s.app :: MaxEpoch(rows', a) == MaxEpoch(rows, a)
    ensures SweptUpTo(log + [s], before, rows')
  {
    assert forall a :: MaxEpoch(rows', a) >= MaxEpoch(rows, a);
  }

  // ---- one epoch per app ----------------------------------------------------------------------

  /** All passes of the app landed in one epoch. */
  ghost predicate SharesEpoch(log: seq<Share>, app: string) {
    forall i, j, a, b | 0 <= i < |log| && 0 <= j < |log| && log[i].app == app && log[j].app == app
                        && 0 <= a < |log[i].passes| && 0 <= b < |log[j].passes| ::
      log[i].passes[a].epoch == log[j].passes[b].epoch
  }

  /** At most one entry of the app gets to the catalog, and it does so once, or successfully the
      first time. */
  predicate AtMostOneEpoch(entries: seq<Entry>, app: string) {
    && (forall i, j | 0 <= i < j < |entries| && entries[i].app == app && entries[j].app == app ::
          Attempts(entries[i].dirs) == [] || Attempts(entries[j].dirs) == [])
    && (forall i | 0 <= i < |entries| && entries[i].app == app ::
          |Attempts(entries[i].dirs)| <= 1 || Attempts(entries[i].dirs)[0])
  }

  ghost predicate LogOf(log: seq<Share>, entries: seq<Entry>) {
    && |log| == |entries|
    && forall i | 0 <= i < |log| :: log[i].app == entries[i].app && Oks(log[i].passes) == Attempts(entries[i].dirs)
  }

  lemma LogAppend(log: seq<Share>, entries: seq<Entry>, s: Share)
    requires |log| < |entries| && LogOf(log, entries[..|log|])
    requires s.app == entries[|log|].app && Oks(s.passes) == Attempts(entries[|log|].dirs)
    ensures LogOf(log + [s], entries[..|log| + 1])
  {
  }

  lemma FirstOkIs(passes: seq<Pass>)
    requires passes != []
    ensures FirstOk(passes) == 0 <==> passes[0].ok
  {
  }

  /** Within an entry the epochs agree exactly when the first pass was enough. */
  lemma EntryShares(s: Share)
    requires OneEpoch(s.passes, s.base)
    ensures (forall a, b | 0 <= a < |s.passes| && 0 <= b < |s.passes| :: s.passes[a].epoch == s.passes[b].epoch)
            <==> |s.passes| <= 1 || s.passes[0].ok
  {
    if |s.passes| > 1 {
      FirstOkIs(s.passes);
      if !s.passes[0].ok { assert s.passes[0].epoch != s.passes[1].epoch; }
    }
  }

  lemma EntriesDiffer(log: seq<Share>, before: Sources, i: nat, j: nat)
    requires Apart(log, before) && i < j < |log| && log[i].app == log[j].app
    ensures forall a, b | 0 <= a < |log[i].passes| && 0 <= b < |log[j].passes| ::
              log[i].passes[a].epoch < log[j].passes[b].epoch
    ensures log[i].passes != [] && log[j].passes != [] ==> log[i].passes[0].epoch < log[j].passes[0].epoch
  {
    assert OneEpoch(log[i].passes, log[i].base) && OneEpoch(log[j].passes, log[j].base);
    assert log[j].base >= log[i].base + Used(log[i].passes);
  }

  lemma SharedIfOne(log: seq<Share>, before: Sources, entries: seq<Entry>, app: string)
    requires Apart(log, before) && LogOf(log, entries) && AtMostOneEpoch(entries, app)
    ensures SharesEpoch(log, app)
  {
    forall i, j, a, b | 0 <= i < |log| && 0 <= j < |log| && log[i].app == app && log[j].app == app
                        && 0 <= a < |log[i].passes| && 0 <= b < |log[j].passes|
      ensures log[i].passes[a].epoch == log[j].passes[b].epoch
    {
      assert |Attempts(entries[i].dirs)| == |log[i].passes| && |Attempts(entries[j].dirs)| == |log[j].passes|;
      assert i == j;
      EntryShares(log[i]);
    }
  }

  lemma OneIfShared(log: seq<Share>, before: Sources, entries: seq<Entry>, app: string)
    requires Apart(log, before) && LogOf(log, entries) && SharesEpoch(log, app)
    ensures AtMostOneEpoch(entries, app)
  {
    forall i, j | 0 <= i < j < |entries| && entries[i].app == app && entries[j].app == app
      ensures Attempts(entries[i].dirs) == [] || Attempts(entries[j].dirs) == []
    {
      EntriesDiffer(log, before, i, j);
      assert |Attempts(entries[i].dirs)| == |log[i].passes| && |Attempts(entries[j].dirs)| == |log[j].passes|;
    }
    forall i | 0 <= i < |entries| && entries[i].app == app
      ensures |Attempts(entries[i].dirs)| <= 1 || Attempts(entries[i].dirs)[0]
    {
      EntryShares(log[i]);
      assert |Attempts(entries[i].dirs)| == |log[i].passes|;
    }
  }

  /** What the reuse is for, an app's passes in one epoch, holds exactly when at most one of its
      entries has an attempt, and that entry's first attempt succeeds or is its only one. */
  lemma OneEpochPerAppIff(log: seq<Share>, before: Sources, entries: seq<Entry>, app: string)
    requires Apart(log, before) && LogOf(log, entries)
    ensures SharesEpoch(log, app) <==> AtMostOneEpoch(entries, app)
  {
    if AtMostOneEpoch(entries, app) {
      SharedIfOne(log, before, entries, app);
    } else if SharesEpoch(log, app) {
      OneIfShared(log, before, entries, app);
    }
  }

  lemma EachApp(log: seq<Share>, before: Sources, entries: seq<Entry>)
    requires Apart(log, before) && LogOf(log, entries)
    ensures forall app :: SharesEpoch(log, app) <==> AtMostOneEpoch(entries, app)
  {
    forall app ensures SharesEpoch(log, app) <==> AtMostOneEpoch(entries, app) {
      OneEpochPerAppIff(log, before, entries, app);
    }
  }

  lemma OneAttempt()
    ensures Attempts([Indexed]) != []
  {
    assert [Indexed][..1] == [Indexed];
    AttemptsStep([Indexed], 0);
  }

  /** The registry's two entries for slack, both with something to index. */
  lemma ListedTwice(log: seq<Share>, before: Sources)
    requires Apart(log, before) && LogOf(log, [Entry("slack", [Indexed]), Entry("slack", [Indexed])])
    ensures !SharesEpoch(log, "slack")
  {
    var entries := [Entry("slack", [Indexed]), Entry("slack", [Indexed])];
    OneEpochPerAppIff(log, before, entries, "slack");
    OneAttempt();
    assert entries[0].app == entries[1].app == "slack";
  }

  class Sweeper {
    var rows: Sources
    var reuse: int      // kbIndexReuseEpoch
    var last: int       // kbIndexLastEpoch

    constructor (rows: Sources)
      ensures this.rows == rows
    {
      this.rows, reuse, last := rows, 0, 0;
    }

    /** sources.Begin: the reused epoch's row, created if need be, or a new MAX + 1. */
    method Begin(app: string) returns (epoch: int)
      modifies this
      ensures reuse == old(reuse) && last == old(last) && epoch > 0
      ensures old(reuse) > 0 ==> epoch == old(reuse)
      ensures old(reuse) <= 0 ==> epoch == MaxEpoch(old(rows), app) + 1
      ensures HasRow(rows, app, epoch)
      ensures rows == if old(reuse) > 0 && HasRow(old(rows), app, epoch) then old(rows)
                      else old(rows) + [Source(app, epoch)]
    {
      if reuse > 0 {
        epoch := reuse;
        if Source(app, epoch) in rows { return; }
      } else {
        epoch := MaxEpoch(rows, app) + 1;
      }
      rows := rows + [Source(app, epoch)];
    }

    /** runKBIndex: remembers the epoch as soon as Begin has given one. */
    method Index(app: string, ok: bool) returns (epoch: int)
      modifies this
      ensures reuse == old(reuse) && last == epoch > 0
      ensures old(reuse) > 0 ==> epoch == old(reuse)
      ensures old(reuse) <= 0 ==> epoch == MaxEpoch(old(rows), app) + 1
      ensures HasRow(rows, app, epoch)
      ensures rows == if old(reuse) > 0 && HasRow(old(rows), app, epoch) then old(rows)
                      else old(rows) + [Source(app, epoch)]
    {
      epoch := Begin(app);
      last := epoch;
    }

    /** Midway through an entry that found the highest epoch of its app at m. */
    ghost predicate Midway(app: string, m: int, passes: seq<Pass>)
      reads this
    {
      && m >= 0 && OneEpoch(passes, m)
      && reuse == Reused(passes, m)
      && MaxEpoch(rows, app) == m + Used(passes)
      && (reuse > 0 ==> HasRow(rows, app, reuse))
    }

    method OnePass(app: string, ghost m: int, ghost passes: seq<Pass>, ok: bool) returns (ghost p: Pass)
      requires Midway(app, m, passes)
      modifies this
      ensures p.ok == ok && Midway(app, m, passes + [p])
      ensures forall a | a != app :: MaxEpoch(rows, a) == MaxEpoch(old(rows), a)
    {
      ghost var before := rows;
      var epoch := Index(app, ok);
      forall a ensures MaxEpoch(before + [Source(app, epoch)], a)
                       == if a == app && epoch > MaxEpoch(before, a) then epoch else MaxEpoch(before, a)
      {
        MaxEpochAppend(before, Source(app, epoch), a);
      }
      p := Pass(epoch, ok);
      PassOn(passes, m, p);
      if ok { reuse := last; }
    }

    /** One directory: extraction and Begin may leave nothing behind, a pass that began counts. */
    method OneDir(app: string, ghost m: int, ghost passes: seq<Pass>, d: Fate) returns (ghost passes': seq<Pass>)
      requires Midway(app, m, passes)
      modifies this
      ensures Midway(app, m, passes')
      ensures Oks(passes') == Oks(passes) + if d.IndexFails? || d.Indexed? then [d.Indexed?] else []
      ensures forall a | a != app :: MaxEpoch(rows, a) == MaxEpoch(old(rows), a)
    {
      OksAppend(passes, Pass(0, d.Indexed?));
      if d.Missing? || d.ExtractFails? || d.BeginFails? { return passes; }
      ghost var p := OnePass(app, m, passes, d.Indexed?);
      OksAppend(passes, p);
      passes' := passes + [p];
    }

    /** One registry entry. Its passes get epochs its app did not have before; once one has
        succeeded, every later one lands in that epoch. */
    method SweepEntry(e: Entry) returns (ghost passes: seq<Pass>)
      modifies this
      ensures OneEpoch(passes, MaxEpoch(old(rows), e.app))
      ensures Oks(passes) == Attempts(e.dirs)
      ensures MaxEpoch(rows, e.app) == MaxEpoch(old(rows), e.app) + Used(passes)
      ensures forall a | a != e.app :: MaxEpoch(rows, a) == MaxEpoch(old(rows), a)
    {
      passes := [];
      ghost var m := MaxEpoch(rows, e.app);
      reuse := 0;
      for i := 0 to |e.dirs|
        invariant Oks(passes) == Attempts(e.dirs[..i]) && Midway(e.app, m, passes)
        invariant forall a | a != e.app :: MaxEpoch(rows, a) == MaxEpoch(old(rows), a)
      {
        AttemptsStep(e.dirs, i);
        passes := OneDir(e.app, m, passes, e.dirs[i]);
      }
      assert e.dirs[..|e.dirs|] == e.dirs;
    }

    /** The whole sweep. No epoch crosses from one entry to the next: each entry starts above
        everything its app had before the sweep and above what earlier entries of the same app
        took, whatever the global held. */
    method Sweep(entries: seq<Entry>) returns (ghost log: seq<Share>)
      modifies this
      ensures LogOf(log, entries) && Apart(log, old(rows))
      ensures forall app :: SharesEpoch(log, app) <==> AtMostOneEpoch(entries, app)
    {
      log := [];
      for i := 0 to |entries|
        invariant LogOf(log, entries[..i]) && SweptUpTo(log, old(rows), rows)
      {
        ghost var before := rows;
        ghost var passes := SweepEntry(entries[i]);
        ghost var share := Share(entries[i].app, MaxEpoch(before, entries[i].app), passes);
        NextEntry(log, old(rows), before, rows, share);
        LogAppend(log, entries, share);
        log := log + [share];
      }
      assert entries[..|entries|] == entries;
      EachApp(log, old(rows), entries);
    }
  }
}
