/** kb backfill-dedup: pending modules take summary and enrichment from a sibling with the same
    body. A module's id is its position. */
module DedupBackfill {
  import opened Basics

  /** flagged is needs_human_verification. */
  datatype Mod = Mod(app: string, sha: string, summary: Option<string>, tags: Option<string>, flagged: bool)

  /** body stands for long_summary .. model. */
  datatype Enrichment = Enrichment(body: string, sha: string, createdAt: int)

  type Mods = seq<Mod>
  type Enriched = map<nat, Enrichment>

  /** The empty app means all. */
  predicate InScope(m: Mod, app: string) {
    app == "" || m.app == app
  }

  predicate Pending(m: Mod, app: string) {
    m.summary.None? && m.sha != "" && !m.flagged && InScope(m, app)
  }

  // ---- DISTINCT ON (body_sha256) ... ORDER BY body_sha256, id -----------------------------

  predicate Source(mods: Mods, sha: string, i: nat) {
    i < |mods| && mods[i].summary.Some? && mods[i].sha == sha != ""
  }

  /** The lowest id among n.. with a summary and this body. */
  function Rep(mods: Mods, sha: string, n: nat): (r: Option<nat>)
    requires n <= |mods|
    ensures r.Some? ==>
              n <= r.value && Source(mods, sha, r.value) && forall j | n <= j < r.value :: !Source(mods, sha, j)
    ensures r.None? ==> forall j | n <= j < |mods| :: !Source(mods, sha, j)
    decreases |mods| - n
  {
    if n == |mods| then None else if Source(mods, sha, n) then Some(n) else Rep(mods, sha, n + 1)
  }

  /** The same among those that have an enrichment row as well. */
  function RichRep(mods: Mods, enriched: Enriched, sha: string, n: nat): (r: Option<nat>)
    requires n <= |mods|
    ensures r.Some? ==> n <= r.value && Source(mods, sha, r.value) && r.value in enriched
    ensures r.Some? ==> forall j | n <= j < r.value :: !(Source(mods, sha, j) && j in enriched)
    ensures r.None? ==> forall j | n <= j < |mods| :: !(Source(mods, sha, j) && j in enriched)
    decreases |mods| - n
  {
    if n == |mods| then None
    else if Source(mods, sha, n) && n in enriched then Some(n)
    else RichRep(mods, enriched, sha, n + 1)
  }

  // ---- the three statements ------------------------------------------------------------------

  predicate Candidate(mods: Mods, app: string, i: nat) {
    i < |mods| && Pending(mods[i], app)
    && exists e | 0 <= e < |mods| :: e != i && mods[e].sha == mods[i].sha && mods[e].summary.Some?
  }

  function CountFrom(mods: Mods, app: string, n: nat): nat
    requires n <= |mods|
  {
    if n == 0 then 0 else CountFrom(mods, app, n - 1) + if Candidate(mods, app, n - 1) then 1 else 0
  }

  /** The dry-run number. */
  function Count(mods: Mods, app: string): nat {
    CountFrom(mods, app, |mods|)
  }

  predicate Inserts(mods: Mods, enriched: Enriched, app: string, i: nat) {
    i < |mods| && Pending(mods[i], app) && i !in enriched && RichRep(mods, enriched, mods[i].sha, 0).Some?
  }

  /** INSERT INTO module_enrichment for the first n modules. */
  function InsertFirst(mods: Mods, enriched: Enriched, app: string, ts: int, n: nat): Enriched
    requires n <= |mods|
  {
    if n == 0 then enriched
    else
      var before := InsertFirst(mods, enriched, app, ts, n - 1);
      if !Inserts(mods, enriched, app, n - 1) then before
      else
        var from := enriched[RichRep(mods, enriched, mods[n - 1].sha, 0).value];
        before[n - 1 := Enrichment(from.body, mods[n - 1].sha, ts)]
  }

  function InsertEnrichment(mods: Mods, enriched: Enriched, app: string, ts: int): Enriched {
    InsertFirst(mods, enriched, app, ts, |mods|)
  }

  function Updated(mods: Mods, app: string, i: nat): Mod
    requires i < |mods|
  {
    var r := Rep(mods, mods[i].sha, 0);
    if Pending(mods[i], app) && r.Some? then mods[i].(summary := mods[r.value].summary, tags := mods[r.value].tags)
    else mods[i]
  }

  /** UPDATE modules SET summary, tags. */
  function UpdateSummaries(mods: Mods, app: string): (out: Mods)
    ensures |out| == |mods| && forall i | 0 <= i < |mods| :: out[i] == Updated(mods, app, i)
  {
    seq(|mods|, i requires 0 <= i < |mods| => Updated(mods, app, i))
  }

  // ---- what they achieve --------------------------------------------------------------------

  lemma CandidateHasRep(mods: Mods, app: string, i: nat)
    requires i < |mods|
    ensures Candidate(mods, app, i) <==> Pending(mods[i], app) && Rep(mods, mods[i].sha, 0).Some?
  {
    if Candidate(mods, app, i) {
      var e :| 0 <= e < |mods| && e != i && mods[e].sha == mods[i].sha && mods[e].summary.Some?;
      assert Source(mods, mods[i].sha, e);
    }
  }

  predicate Cleared(mods: Mods, after: Mods, i: nat)
    requires |mods| == |after|
  {
    i < |mods| && mods[i].summary.None? && after[i].summary.Some?
  }

  function ClearedCount(mods: Mods, after: Mods, n: nat): nat
    requires |mods| == |after| && n <= |mods|
  {
    if n == 0 then 0 else ClearedCount(mods, after, n - 1) + if Cleared(mods, after, n - 1) then 1 else 0
  }

  /** A module is cleared exactly when the count query counts it, and then it carries the
      summary and tags of the lowest-id summarised sibling; no other module changes. */
  lemma UpdateClears(mods: Mods, app: string, i: nat)
    requires i < |mods|
    ensures Cleared(mods, UpdateSummaries(mods, app), i) <==> Candidate(mods, app, i)
    ensures !Candidate(mods, app, i) ==> UpdateSummaries(mods, app)[i] == mods[i]
    ensures mods[i].flagged || mods[i].sha == "" || mods[i].summary.Some? || !InScope(mods[i], app) ==>
              !Candidate(mods, app, i)
  {
    CandidateHasRep(mods, app, i);
  }

  lemma {:induction false} CountIsCleared(mods: Mods, app: string, n: nat)
    requires n <= |mods|
    ensures CountFrom(mods, app, n) == ClearedCount(mods, UpdateSummaries(mods, app), n)
  {
    if n == 0 {
    } else {
      CountIsCleared(mods, app, n - 1);
      UpdateClears(mods, app, n - 1);
    }
  }

  lemma StillPending(mods: Mods, app: string, i: nat)
    requires i < |mods| && Pending(UpdateSummaries(mods, app)[i], app)
    ensures UpdateSummaries(mods, app)[i] == mods[i] && Rep(mods, mods[i].sha, 0).None?
  {
  }

  /** A body summarised after the update had a summarised module before. */
  lemma SourceBefore(mods: Mods, app: string, e: nat)
    requires e < |mods| && UpdateSummaries(mods, app)[e].summary.Some? && mods[e].sha != ""
    ensures Rep(mods, mods[e].sha, 0).Some?
  {
    if mods[e].summary.Some? { assert Source(mods, mods[e].sha, e); }
  }

  /** Afterwards nothing in scope has a summarised sibling any more. */
  lemma NoneLeft(mods: Mods, app: string, i: nat)
    requires i < |mods|
    ensures !Candidate(UpdateSummaries(mods, app), app, i)
    ensures var after := UpdateSummaries(mods, app);
            Pending(after[i], app) ==> forall e: nat :: !Source(after, after[i].sha, e)
  {
    var after := UpdateSummaries(mods, app);
    if Pending(after[i], app) {
      StillPending(mods, app, i);
      forall e: nat | e < |after| && after[e].sha == after[i].sha ensures after[e].summary.None? {
        if after[e].summary.Some? { SourceBefore(mods, app, e); }
      }
    }
  }

  lemma {:induction false} ZeroLeft(mods: Mods, app: string, n: nat)
    requires n <= |mods|
    ensures CountFrom(UpdateSummaries(mods, app), app, n) == 0
  {
    if n == 0 {
    } else {
      ZeroLeft(mods, app, n - 1);
      NoneLeft(mods, app, n - 1);
    }
  }

  lemma {:induction false} InsertFirstExact(mods: Mods, enriched: Enriched, app: string, ts: int, n: nat)
    requires n <= |mods|
    ensures var out := InsertFirst(mods, enriched, app, ts, n);
            && (forall i | i in enriched :: i in out && out[i] == enriched[i])
            && (forall i | i in out && i !in enriched :: 0 <= i < n && Inserts(mods, enriched, app, i))
            && (forall i | 0 <= i < n && Inserts(mods, enriched, app, i) ::
                  i in out && out[i] == Enrichment(
                    enriched[RichRep(mods, enriched, mods[i].sha, 0).value].body, mods[i].sha, ts))
  {
    if n == 0 {
    } else {
      InsertFirstExact(mods, enriched, app, ts, n - 1);
    }
  }

  /** Summary before enrichment would insert nothing at all: the cleared modules are no longer
      pending and the pending ones have no source. */
  lemma OrderMatters(mods: Mods, enriched: Enriched, app: string, ts: int)
    ensures InsertEnrichment(UpdateSummaries(mods, app), enriched, app, ts) == enriched
  {
    var after := UpdateSummaries(mods, app);
    forall i: nat | i < |after| ensures !Inserts(after, enriched, app, i) {
      NoneLeft(mods, app, i);
    }
    InsertNothing(after, enriched, app, ts, |after|);
  }

  lemma {:induction false} InsertNothing(mods: Mods, enriched: Enriched, app: string, ts: int, n: nat)
    requires n <= |mods| && forall i: nat | i < |mods| :: !Inserts(mods, enriched, app, i)
    ensures InsertFirst(mods, enriched, app, ts, n) == enriched
  {
    if n == 0 {
    } else {
      InsertNothing(mods, enriched, app, ts, n - 1);
    }
  }

  /** Summary and enrichment come from one and the same sibling exactly when the lowest-id
      summarised one has an enrichment row. */
  lemma SameSiblingIff(mods: Mods, enriched: Enriched, sha: string)
    requires Rep(mods, sha, 0).Some?
    ensures RichRep(mods, enriched, sha, 0) == Rep(mods, sha, 0) <==> Rep(mods, sha, 0).value in enriched
  {
    var r := Rep(mods, sha, 0).value;
    var q := RichRep(mods, enriched, sha, 0);
    if r in enriched {
      assert Source(mods, sha, r) && r in enriched;
      assert q.Some? && q.value <= r;
      assert Source(mods, sha, q.value) && r <= q.value;
    }
  }

  // ---- row by row -------------------------------------------------------------------------------

  /** No summary yet, a body hash, not held for a human, in the command's scope. */
  predicate Awaits(m: Mod, app: string) {
    m.summary.None? && m.sha != "" && !m.flagged && (app == "" || m.app == app)
  }

  /** e is the lowest-id summarised module with m's body. */
  predicate FirstSibling(mods: Mods, m: Mod, e: int) {
    && 0 <= e < |mods| && mods[e].summary.Some? && mods[e].sha == m.sha
    && forall j | 0 <= j < e :: mods[j].summary.None? || mods[j].sha != m.sha
  }

  /** The same among those with an enrichment row. */
  predicate FirstRichSibling(mods: Mods, enriched: Enriched, m: Mod, e: int) {
    && 0 <= e < |mods| && mods[e].summary.Some? && mods[e].sha == m.sha && e in enriched
    && forall j | 0 <= j < e :: mods[j].summary.None? || mods[j].sha != m.sha || j !in enriched
  }

  /** Each waiting module has the summary and the tags of its first summarised sibling; no other
      module and no other column changed. */
  ghost predicate SummariesTaken(was: Mods, now: Mods, app: string) {
    && |now| == |was|
    && (forall i, e | 0 <= i < |was| && Awaits(was[i], app) && FirstSibling(was, was[i], e) ::
          now[i] == was[i].(summary := was[e].summary, tags := was[e].tags))
    && (forall i | 0 <= i < |was| && !(Awaits(was[i], app) && exists e :: FirstSibling(was, was[i], e)) ::
          now[i] == was[i])
  }

  predicate HoldsCopy(mods: Mods, was: Enriched, now: Enriched, ts: int, i: nat, e: int) {
    && i < |mods| && e in was && i in now
    && now[i] == Enrichment(was[e].body, mods[i].sha, ts)
  }

  /** Each waiting module without an enrichment row has a copy of its first enriched sibling's, under
      its own body and the run's time; no other row came and none changed. */
  ghost predicate EnrichmentTaken(mods: Mods, was: Enriched, now: Enriched, app: string, ts: int) {
    && (forall i | i in was :: i in now && now[i] == was[i])
    && (forall i: nat, e | i < |mods| && i !in was && Awaits(mods[i], app) && FirstRichSibling(mods, was, mods[i], e) ::
          HoldsCopy(mods, was, now, ts, i, e))
    && (forall i | i in now && i !in was ::
          i < |mods| && Awaits(mods[i], app) && exists e :: FirstRichSibling(mods, was, mods[i], e))
  }

  lemma RepIsFirst(mods: Mods, i: nat, e: int)
    requires i < |mods| && mods[i].sha != ""
    ensures FirstSibling(mods, mods[i], e) <==> Rep(mods, mods[i].sha, 0) == Some(e)
  {
    var sha, r := mods[i].sha, Rep(mods, mods[i].sha, 0);
    if FirstSibling(mods, mods[i], e) {
      assert Source(mods, sha, e);
      assert r.Some? && Source(mods, sha, r.value);
    }
    if r == Some(e) {
      forall j | 0 <= j < e ensures mods[j].summary.None? || mods[j].sha != sha { assert !Source(mods, sha, j); }
    }
  }

  lemma HasSiblingIff(mods: Mods, i: nat)
    requires i < |mods| && mods[i].sha != ""
    ensures (exists e :: FirstSibling(mods, mods[i], e)) <==> Rep(mods, mods[i].sha, 0).Some?
  {
    if e :| FirstSibling(mods, mods[i], e) { RepIsFirst(mods, i, e); }
    var r := Rep(mods, mods[i].sha, 0);
    if r.Some? { RepIsFirst(mods, i, r.value); }
  }

  lemma RichRepIsFirst(mods: Mods, enriched: Enriched, i: nat, e: int)
    requires i < |mods| && mods[i].sha != ""
    ensures FirstRichSibling(mods, enriched, mods[i], e) <==> RichRep(mods, enriched, mods[i].sha, 0) == Some(e)
  {
    var sha, r := mods[i].sha, RichRep(mods, enriched, mods[i].sha, 0);
    if FirstRichSibling(mods, enriched, mods[i], e) {
      assert Source(mods, sha, e) && e in enriched;
      assert r.Some? && Source(mods, sha, r.value) && r.value in enriched;
    }
    if r == Some(e) {
      forall j | 0 <= j < e ensures mods[j].summary.None? || mods[j].sha != sha || j !in enriched {
        assert !(Source(mods, sha, j) && j in enriched);
      }
    }
  }

  lemma HasRichSiblingIff(mods: Mods, enriched: Enriched, i: nat)
    requires i < |mods| && mods[i].sha != ""
    ensures (exists e :: FirstRichSibling(mods, enriched, mods[i], e))
            <==> RichRep(mods, enriched, mods[i].sha, 0).Some?
  {
    if e :| FirstRichSibling(mods, enriched, mods[i], e) { RichRepIsFirst(mods, enriched, i, e); }
    var r := RichRep(mods, enriched, mods[i].sha, 0);
    if r.Some? { RichRepIsFirst(mods, enriched, i, r.value); }
  }

  lemma SummariesAreTaken(mods: Mods, app: string)
    ensures SummariesTaken(mods, UpdateSummaries(mods, app), app)
  {
    var now := UpdateSummaries(mods, app);
    forall i, e | 0 <= i < |mods| && Awaits(mods[i], app) && FirstSibling(mods, mods[i], e)
      ensures now[i] == mods[i].(summary := mods[e].summary, tags := mods[e].tags)
    {
      RepIsFirst(mods, i, e);
    }
    forall i | 0 <= i < |mods| && !(Awaits(mods[i], app) && exists e :: FirstSibling(mods, mods[i], e))
      ensures now[i] == mods[i]
    {
      if Awaits(mods[i], app) { HasSiblingIff(mods, i); }
    }
  }

  lemma InsertsIff(mods: Mods, enriched: Enriched, app: string, i: nat)
    ensures Inserts(mods, enriched, app, i)
            <==> i < |mods| && i !in enriched && Awaits(mods[i], app)
                 && exists e :: FirstRichSibling(mods, enriched, mods[i], e)
  {
    if i < |mods| && mods[i].sha != "" { HasRichSiblingIff(mods, enriched, i); }
  }

  lemma EnrichmentIsTaken(mods: Mods, enriched: Enriched, app: string, ts: int)
    ensures EnrichmentTaken(mods, enriched, InsertEnrichment(mods, enriched, app, ts), app, ts)
  {
    var now := InsertEnrichment(mods, enriched, app, ts);
    InsertFirstExact(mods, enriched, app, ts, |mods|);
    forall i: nat, e | i < |mods| && i !in enriched && Awaits(mods[i], app)
                       && FirstRichSibling(mods, enriched, mods[i], e)
      ensures HoldsCopy(mods, enriched, now, ts, i, e)
    {
      InsertsIff(mods, enriched, app, i);
      RichRepIsFirst(mods, enriched, i, e);
    }
    forall i | i in now && i !in enriched
      ensures i < |mods| && Awaits(mods[i], app) && exists e :: FirstRichSibling(mods, enriched, mods[i], e)
    {
      InsertsIff(mods, enriched, app, i);
    }
  }

  // ---- the command -----------------------------------------------------------------------------

  class Catalog {
    var mods: Mods
    var enriched: Enriched

    constructor (mods: Mods, enriched: Enriched)
      ensures this.mods == mods && this.enriched == enriched
    {
      this.mods, this.enriched := mods, enriched;
    }

    /** n is what the command announces. Both statements run in one transaction; a run that
        commits clears exactly n modules and leaves none to clear. */
    method Run(app: string, dryRun: bool, ts: int, commits: bool) returns (n: nat, wrote: bool)
      modifies this
      ensures n == Count(old(mods), app)
      ensures wrote == (!dryRun && n > 0 && commits)
      ensures !wrote ==> mods == old(mods) && enriched == old(enriched)
      ensures wrote ==> mods == UpdateSummaries(old(mods), app) && SummariesTaken(old(mods), mods, app)
      ensures wrote ==> enriched == InsertEnrichment(old(mods), old(enriched), app, ts)
      ensures wrote ==> EnrichmentTaken(old(mods), old(enriched), enriched, app, ts)
      ensures wrote ==> ClearedCount(old(mods), mods, |mods|) == n && Count(mods, app) == 0
      ensures wrote ==> forall i | i in old(enriched) :: i in enriched && enriched[i] == old(enriched)[i]
    {
      n, wrote := Count(mods, app), false;
      if dryRun || n == 0 { return; }
      var newEnriched := InsertEnrichment(mods, enriched, app, ts);
      var newMods := UpdateSummaries(mods, app);
      if !commits { return; }
      CountIsCleared(mods, app, |mods|);
      ZeroLeft(mods, app, |mods|);
      InsertFirstExact(mods, enriched, app, ts, |mods|);
      SummariesAreTaken(mods, app);
      EnrichmentIsTaken(mods, enriched, app, ts);
      enriched, mods, wrote := newEnriched, newMods, true;
    }
  }
}
