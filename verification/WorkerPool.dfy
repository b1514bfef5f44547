/** The producer and N workers both backfills share: LIMIT/OFFSET pages through a channel of
    capacity 2N, an atomic counter that lags, errors that cancel the group. A run is any
    interleaving of its atomic steps; a killed process is a run that stops early. This module
    has the control state; BackfillRows adds what the statements do to the rows. */
module WorkerPool {
  import opened Basics

  const PAGE := 500

  /** Where a fetched page is. Half: the first of its two statements has run. */
  datatype Place = Fetched | Queued | Taken | Half | Marked | Counted | Broken

  /** Rows lo..hi of the candidate list. */
  datatype Page = Page(lo: nat, hi: nat, at: Place)

  datatype Producer = Ready | Loaded(take: nat) | Holding | Closed

  /** total: the candidate rows. pages: every page fetched so far. workers: those still in
      their loop. */
  datatype Pool = Pool(total: nat, pages: seq<Page>, producer: Producer, processed: nat, workers: nat, failed: bool)

  /** A limit of 0 is no limit. */
  datatype Config = Config(workers: nat, limit: nat)

  datatype Step =
    | Load | Fetch | FetchFails | Send | GiveUp
    | Take(i: nat) | First(i: nat) | Second(i: nat) | Count(i: nat) | Break(i: nat)

  // ---- sums over the pages ------------------------------------------------------------

  /** What to add up: pages in a place, rows, or work still to do. */
  datatype Kind = InQueue | InHand | Lost | Held | RowsCounted | RowsFetched | Work

  predicate Busy(at: Place) {
    at.Taken? || at.Half? || at.Marked?
  }

  function One(b: bool): nat {
    if b then 1 else 0
  }

  function Len(p: Page): nat {
    if p.lo <= p.hi then p.hi - p.lo else 0
  }

  function Weight(at: Place): nat {
    match at
    case Fetched => 8
    case Queued => 5
    case Taken => 4
    case Half => 3
    case Marked => 2
    case Counted => 0
    case Broken => 0
  }

  function Score(k: Kind, p: Page): nat {
    match k
    case InQueue => One(p.at.Queued?)
    case InHand => One(Busy(p.at))
    case Lost => One(p.at.Broken?)
    case Held => One(p.at.Fetched?)
    case RowsCounted => if p.at.Counted? then Len(p) else 0
    case RowsFetched => Len(p)
    case Work => Weight(p.at)
  }

  function Sum(k: Kind, pages: seq<Page>): nat {
    if pages == [] then 0 else Sum(k, pages[..|pages| - 1]) + Score(k, pages[|pages| - 1])
  }

  function Move(pages: seq<Page>, i: nat, at: Place): seq<Page>
    requires i < |pages|
  {
    pages[i := pages[i].(at := at)]
  }

  lemma {:induction false} SumMove(k: Kind, pages: seq<Page>, i: nat, at: Place)
    requires i < |pages|
    ensures Sum(k, Move(pages, i, at)) + Score(k, pages[i]) == Sum(k, pages) + Score(k, pages[i].(at := at))
  {
    var n := |pages| - 1;
    if i < n {
      SumMove(k, pages[..n], i, at);
      assert Move(pages, i, at)[..n] == Move(pages[..n], i, at);
    } else {
      assert Move(pages, i, at)[..n] == pages[..n];
    }
  }

  lemma SumAppend(k: Kind, pages: seq<Page>, p: Page)
    ensures Sum(k, pages + [p]) == Sum(k, pages) + Score(k, p)
  {
    assert (pages + [p])[..|pages|] == pages;
  }

  lemma {:induction false} SumAtLeast(k: Kind, pages: seq<Page>, i: nat)
    requires i < |pages|
    ensures Sum(k, pages) >= Score(k, pages[i])
  {
    var n := |pages| - 1;
    if i == n {
    } else {
      SumAtLeast(k, pages[..n], i);
    }
  }

  /** A positive sum has a first page that scores. */
  lemma {:induction false} FirstScoring(k: Kind, pages: seq<Page>) returns (i: nat)
    requires Sum(k, pages) > 0
    ensures i < |pages| && Score(k, pages[i]) > 0 && forall j | 0 <= j < i :: Score(k, pages[j]) == 0
  {
    var n := |pages| - 1;
    if Sum(k, pages[..n]) > 0 {
      i := FirstScoring(k, pages[..n]);
    } else {
      i := n;
      forall j | 0 <= j < n ensures Score(k, pages[j]) == 0 { SumAtLeast(k, pages[..n], j); }
    }
  }

  /** Rows fetched but not counted sit in pages of at most 500 rows. */
  lemma {:induction false} LagBound(pages: seq<Page>)
    requires forall i | 0 <= i < |pages| :: Len(pages[i]) <= PAGE
    ensures Sum(RowsCounted, pages) <= Sum(RowsFetched, pages)
    ensures Sum(RowsFetched, pages)
            <= Sum(RowsCounted, pages)
               + 500 * (Sum(InQueue, pages) + Sum(InHand, pages) + Sum(Lost, pages) + Sum(Held, pages))
  {
    if pages == [] {
    } else {
      LagBound(pages[..|pages| - 1]);
    }
  }

  // ---- the steps --------------------------------------------------------------------

  function Offset(pages: seq<Page>): nat {
    if pages == [] then 0 else pages[|pages| - 1].hi
  }

  function Init(c: Config, total: nat): Pool {
    Pool(total, [], Ready, 0, c.workers, false)
  }

  predicate Enabled(c: Config, s: Pool, step: Step) {
    match step
    case Load => s.producer.Ready?
    case Fetch => s.producer.Loaded?
    case FetchFails => s.producer.Loaded?
    case Send => s.producer.Holding? && s.pages != [] && Sum(InQueue, s.pages) < 2 * c.workers
    case GiveUp => s.failed && (s.producer.Ready? || s.producer.Holding?)
    case Take(i) =>
      && i < |s.pages| && s.pages[i].at.Queued? && (forall j | 0 <= j < i :: !s.pages[j].at.Queued?)
      && Sum(InHand, s.pages) < s.workers
    case First(i) => i < |s.pages| && s.pages[i].at.Taken?
    case Second(i) => i < |s.pages| && s.pages[i].at.Half?
    case Count(i) => i < |s.pages| && s.pages[i].at.Marked?
    case Break(i) => i < |s.pages| && Busy(s.pages[i].at) && s.workers > 0
  }

  function DoLoad(c: Config, s: Pool): Pool {
    if c.limit > 0 && s.processed >= c.limit then s.(producer := Closed)
    else s.(producer := Loaded(if c.limit > 0 then Min(PAGE, c.limit - s.processed) else PAGE))
  }

  function DoFetch(s: Pool): Pool
    requires s.producer.Loaded?
  {
    var lo := Offset(s.pages);
    if lo >= s.total || s.producer.take == 0 then s.(producer := Closed)
    else s.(producer := Holding, pages := s.pages + [Page(lo, Min(lo + s.producer.take, s.total), Fetched)])
  }

  function DoSend(s: Pool): Pool
    requires s.pages != []
  {
    var last := |s.pages| - 1;
    s.(producer := if Len(s.pages[last]) < PAGE then Closed else Ready, pages := Move(s.pages, last, Queued))
  }

  function Apply(c: Config, s: Pool, step: Step): Pool
    requires Enabled(c, s, step)
  {
    match step
    case Load => DoLoad(c, s)
    case Fetch => DoFetch(s)
    case FetchFails => s.(producer := Closed, failed := true)
    case Send => DoSend(s)
    case GiveUp => s.(producer := Closed)
    case Take(i) => s.(pages := Move(s.pages, i, Taken))
    case First(i) => s.(pages := Move(s.pages, i, Half))
    case Second(i) => s.(pages := Move(s.pages, i, Marked))
    case Count(i) => s.(processed := s.processed + Len(s.pages[i]), pages := Move(s.pages, i, Counted))
    case Break(i) => s.(failed := true, workers := s.workers - 1, pages := Move(s.pages, i, Broken))
  }

  predicate CanRun(c: Config, s: Pool, steps: seq<Step>)
    decreases |steps|, 0
  {
    || steps == []
    || (CanRun(c, s, steps[..|steps| - 1]) && Enabled(c, After(c, s, steps[..|steps| - 1]), steps[|steps| - 1]))
  }

  function After(c: Config, s: Pool, steps: seq<Step>): Pool
    requires CanRun(c, s, steps)
    decreases |steps|, 1
  {
    if steps == [] then s else Apply(c, After(c, s, steps[..|steps| - 1]), steps[|steps| - 1])
  }

  lemma Extend(c: Config, s: Pool, steps: seq<Step>, step: Step)
    requires CanRun(c, s, steps) && Enabled(c, After(c, s, steps), step)
    ensures CanRun(c, s, steps + [step]) && After(c, s, steps + [step]) == Apply(c, After(c, s, steps), step)
  {
    assert (steps + [step])[..|steps|] == steps;
  }

  // ---- what every step keeps ------------------------------------------------------------

  predicate InPlace(pages: seq<Page>, i: nat, total: nat)
    requires i < |pages|
  {
    && pages[i].lo < pages[i].hi <= total && Len(pages[i]) <= PAGE
    && pages[i].lo == if i == 0 then 0 else pages[i - 1].hi
  }

  /** Pages follow one another from row 0; each has 1 to 500 rows. */
  predicate Tiled(pages: seq<Page>, total: nat) {
    forall i | 0 <= i < |pages| :: InPlace(pages, i, total)
  }

  /** Every worker that is still running holds at most one page, every lost page cost a worker. */
  predicate Staffed(c: Config, s: Pool) {
    && Sum(InQueue, s.pages) <= 2 * c.workers
    && Sum(InHand, s.pages) <= s.workers
    && s.workers + Sum(Lost, s.pages) <= c.workers
    && (!s.failed ==> s.workers == c.workers && Sum(Lost, s.pages) == 0)
  }

  /** Only the newest page can be in the producer's hands; cancelled, the producer drops it. */
  predicate HoldOk(s: Pool) {
    && (s.producer.Holding? ==> s.pages != [] && s.pages[|s.pages| - 1].at.Fetched?)
    && (forall i | 0 <= i < |s.pages| && s.pages[i].at.Fetched? ::
          i == |s.pages| - 1 && (s.producer.Holding? || (s.producer.Closed? && s.failed)))
  }

  /** The producer may stop: all rows are fetched, or as many as the limit asks for. */
  predicate Enough(c: Config, s: Pool) {
    Offset(s.pages) == s.total || (c.limit > 0 && Offset(s.pages) >= c.limit)
  }

  predicate Counts(s: Pool) {
    s.processed == Sum(RowsCounted, s.pages) && Offset(s.pages) == Sum(RowsFetched, s.pages)
  }

  /** What the limit allows: the counter lags by at most the pages in channel and workers. */
  predicate Limited(c: Config, s: Pool) {
    && (c.limit > 0 ==> Offset(s.pages) <= c.limit + 1500 * c.workers)
    && (s.producer.Loaded? ==>
          && 1 <= s.producer.take <= PAGE
          && (c.limit > 0 ==> Offset(s.pages) + s.producer.take <= c.limit + 1500 * c.workers)
          && (s.producer.take == PAGE || (c.limit > 0 && Offset(s.pages) + s.producer.take >= c.limit)))
    && (s.producer.Holding? && s.pages != [] && Len(s.pages[|s.pages| - 1]) < PAGE ==> Enough(c, s))
    && (s.producer.Closed? && !s.failed ==> Enough(c, s))
  }

  predicate Inv(c: Config, s: Pool) {
    Tiled(s.pages, s.total) && Staffed(c, s) && HoldOk(s) && Counts(s) && Limited(c, s)
  }

  lemma MoveFacts(pages: seq<Page>, i: nat, at: Place, total: nat)
    requires i < |pages| && Tiled(pages, total)
    ensures Tiled(Move(pages, i, at), total)
    ensures Offset(Move(pages, i, at)) == Offset(pages)
  {
    var moved := Move(pages, i, at);
    forall k | 0 <= k < |moved| ensures InPlace(moved, k, total) {
      assert InPlace(pages, k, total);
    }
  }

  lemma TiledOffset(pages: seq<Page>, total: nat)
    requires Tiled(pages, total)
    ensures Offset(pages) <= total
  {
    if pages != [] { assert InPlace(pages, |pages| - 1, total); }
  }

  /** The pages after a step, and the place each came from. */
  predicate Moved(s: Pool, s': Pool, i: nat, at: Place) {
    i < |s.pages| && s'.pages == Move(s.pages, i, at) && s'.total == s.total
  }

  lemma MoveKeepsStaff(c: Config, s: Pool, s': Pool, i: nat, at: Place)
    requires Staffed(c, s) && Moved(s, s', i, at)
    requires at.Queued? ==> s.pages[i].at.Fetched? && Sum(InQueue, s.pages) < 2 * c.workers
    requires at.Fetched? ==> s.pages[i].at.Fetched?
    requires Busy(at) ==> Busy(s.pages[i].at) || (s.pages[i].at.Queued? && Sum(InHand, s.pages) < s.workers)
    requires at.Counted? ==> s.pages[i].at.Marked?
    requires if at.Broken? then Busy(s.pages[i].at) && s'.failed && s'.workers == s.workers - 1
             else s'.failed == s.failed && s'.workers == s.workers
    ensures Staffed(c, s')
  {
    SumMove(InQueue, s.pages, i, at);
    SumMove(InHand, s.pages, i, at);
    SumMove(Lost, s.pages, i, at);
    SumAtLeast(InQueue, s.pages, i);
    SumAtLeast(InHand, s.pages, i);
  }

  lemma MoveKeepsCounts(s: Pool, s': Pool, i: nat, at: Place)
    requires Tiled(s.pages, s.total) && Counts(s) && Moved(s, s', i, at) && !s.pages[i].at.Counted?
    requires s'.processed == s.processed + if at.Counted? then Len(s.pages[i]) else 0
    ensures Counts(s') && Tiled(s'.pages, s'.total) && Offset(s'.pages) == Offset(s.pages)
  {
    MoveFacts(s.pages, i, at, s.total);
    SumMove(RowsCounted, s.pages, i, at);
    SumMove(RowsFetched, s.pages, i, at);
  }

  lemma {:induction false} NoneHeld(pages: seq<Page>)
    requires forall i | 0 <= i < |pages| :: !pages[i].at.Fetched?
    ensures Sum(Held, pages) == 0
  {
    if pages == [] {
    } else {
      NoneHeld(pages[..|pages| - 1]);
    }
  }

  /** The counter is never ahead, and behind by at most 3 w pages of 500. */
  lemma Lag(c: Config, s: Pool)
    requires Inv(c, s) && s.producer.Ready?
    ensures s.processed <= Offset(s.pages) <= s.processed + 1500 * c.workers
  {
    NoneHeld(s.pages);
    ShortPages(s.pages, s.total);
    LagBound(s.pages);
    assert Sum(InQueue, s.pages) + Sum(InHand, s.pages) + Sum(Lost, s.pages) <= 3 * c.workers;
  }

  lemma ShortPages(pages: seq<Page>, total: nat)
    requires Tiled(pages, total)
    ensures forall i | 0 <= i < |pages| :: Len(pages[i]) <= PAGE
  {
    forall i | 0 <= i < |pages| ensures Len(pages[i]) <= PAGE { assert InPlace(pages, i, total); }
  }

  lemma LoadLimited(c: Config, s: Pool)
    requires Limited(c, s) && s.producer.Ready?
    requires s.processed <= Offset(s.pages) <= s.processed + 1500 * c.workers
    ensures Limited(c, DoLoad(c, s))
  {
  }

  lemma LoadKeeps(c: Config, s: Pool)
    requires Inv(c, s) && Enabled(c, s, Load)
    ensures Inv(c, Apply(c, s, Load))
  {
    Lag(c, s);
    LoadLimited(c, s);
  }

  lemma TiledAppend(pages: seq<Page>, total: nat, p: Page)
    requires Tiled(pages, total) && p.lo == Offset(pages) && p.lo < p.hi <= total && p.hi - p.lo <= PAGE
    ensures Tiled(pages + [p], total) && Offset(pages + [p]) == p.hi
  {
    forall k | 0 <= k < |pages + [p]| ensures InPlace(pages + [p], k, total) {
      if k < |pages| { assert InPlace(pages, k, total); }
    }
  }

  lemma FetchStaffed(c: Config, s: Pool, p: Page)
    requires Staffed(c, s) && p.at.Fetched?
    ensures Staffed(c, s.(producer := Holding, pages := s.pages + [p]))
  {
    SumAppend(InQueue, s.pages, p);
    SumAppend(InHand, s.pages, p);
    SumAppend(Lost, s.pages, p);
  }

  lemma FetchCounts(s: Pool, p: Page)
    requires Counts(s) && p.at.Fetched? && p.lo == Offset(s.pages) && p.lo < p.hi
    ensures Counts(s.(producer := Holding, pages := s.pages + [p]))
  {
    SumAppend(RowsCounted, s.pages, p);
    SumAppend(RowsFetched, s.pages, p);
  }

  lemma FetchLimited(c: Config, s: Pool, p: Page)
    requires Limited(c, s) && s.producer.Loaded? && p.lo == Offset(s.pages) < s.total
    requires p.hi == Min(p.lo + s.producer.take, s.total)
    ensures Limited(c, s.(producer := Holding, pages := s.pages + [p]))
  {
  }

  lemma FetchHold(s: Pool, p: Page)
    requires HoldOk(s) && s.producer.Loaded? && p.at.Fetched?
    ensures HoldOk(s.(producer := Holding, pages := s.pages + [p]))
  {
  }

  lemma FetchPage(c: Config, s: Pool, p: Page)
    requires Inv(c, s) && s.producer.Loaded? && Offset(s.pages) < s.total
    requires p == Page(Offset(s.pages), Min(Offset(s.pages) + s.producer.take, s.total), Fetched)
    ensures Inv(c, s.(producer := Holding, pages := s.pages + [p]))
  {
    TiledAppend(s.pages, s.total, p);
    FetchStaffed(c, s, p);
    FetchCounts(s, p);
    FetchLimited(c, s, p);
    FetchHold(s, p);
  }

  lemma FetchEnds(c: Config, s: Pool)
    requires Inv(c, s) && s.producer.Loaded? && Offset(s.pages) == s.total
    ensures Inv(c, s.(producer := Closed))
  {
  }

  lemma FetchKeeps(c: Config, s: Pool)
    requires Inv(c, s) && Enabled(c, s, Fetch)
    ensures Inv(c, Apply(c, s, Fetch))
  {
    TiledOffset(s.pages, s.total);
    if Offset(s.pages) < s.total {
      FetchPage(c, s, Page(Offset(s.pages), Min(Offset(s.pages) + s.producer.take, s.total), Fetched));
    } else {
      FetchEnds(c, s);
    }
  }

  lemma SendKeeps(c: Config, s: Pool)
    requires Inv(c, s) && Enabled(c, s, Send)
    ensures Inv(c, Apply(c, s, Send))
  {
    var s' := Apply(c, s, Send);
    MoveKeepsStaff(c, s, s', |s.pages| - 1, Queued);
    MoveKeepsCounts(s, s', |s.pages| - 1, Queued);
  }

  /** A worker's step moves one page. */
  function Target(step: Step): Place
    requires step.Take? || step.First? || step.Second? || step.Count? || step.Break?
  {
    match step
    case Take(_) => Taken
    case First(_) => Half
    case Second(_) => Marked
    case Count(_) => Counted
    case Break(_) => Broken
  }

  predicate WorkerStep(step: Step) {
    step.Take? || step.First? || step.Second? || step.Count? || step.Break?
  }

  lemma WorkerKeeps(c: Config, s: Pool, step: Step)
    requires Inv(c, s) && Enabled(c, s, step) && WorkerStep(step)
    ensures Inv(c, Apply(c, s, step))
  {
    var s' := Apply(c, s, step);
    MoveKeepsStaff(c, s, s', step.i, Target(step));
    MoveKeepsCounts(s, s', step.i, Target(step));
  }

  lemma StepKeeps(c: Config, s: Pool, step: Step)
    requires Inv(c, s) && Enabled(c, s, step)
    ensures Inv(c, Apply(c, s, step))
  {
    match step
    case Load => LoadKeeps(c, s);
    case Fetch => FetchKeeps(c, s);
    case Send => SendKeeps(c, s);
    case FetchFails =>
    case GiveUp =>
    case _ => WorkerKeeps(c, s, step);
  }

  lemma {:induction false} RunKeeps(c: Config, total: nat, steps: seq<Step>)
    requires CanRun(c, Init(c, total), steps)
    ensures Inv(c, After(c, Init(c, total), steps))
    ensures After(c, Init(c, total), steps).total == total
  {
    if steps == [] {
    } else {
      var n := |steps| - 1;
      RunKeeps(c, total, steps[..n]);
      StepKeeps(c, After(c, Init(c, total), steps[..n]), steps[n]);
    }
  }

  // ---- every run ends, and never stuck ----------------------------------------------------

  function ProducerWeight(p: Producer): nat {
    match p
    case Ready => 3
    case Loaded(_) => 2
    case Holding => 1
    case Closed => 0
  }

  function Potential(s: Pool): int {
    10 * (s.total - Offset(s.pages)) + Sum(Work, s.pages) + ProducerWeight(s.producer)
  }

  lemma MoveShrinks(s: Pool, s': Pool, i: nat, at: Place)
    requires Tiled(s.pages, s.total) && Moved(s, s', i, at)
    requires Weight(at) + ProducerWeight(s'.producer) < Weight(s.pages[i].at) + ProducerWeight(s.producer)
    ensures Potential(s') < Potential(s)
  {
    MoveFacts(s.pages, i, at, s.total);
    SumMove(Work, s.pages, i, at);
  }

  lemma FetchShrinks(s: Pool)
    requires Tiled(s.pages, s.total) && s.producer.Loaded?
    ensures Potential(DoFetch(s)) < Potential(s)
  {
    TiledOffset(s.pages, s.total);
    if Offset(s.pages) < s.total {
      var p := Page(Offset(s.pages), Min(Offset(s.pages) + s.producer.take, s.total), Fetched);
      SumAppend(Work, s.pages, p);
      assert Offset(s.pages + [p]) == p.hi;
    }
  }

  lemma StepShrinks(c: Config, s: Pool, step: Step)
    requires Inv(c, s) && Enabled(c, s, step)
    ensures Potential(Apply(c, s, step)) < Potential(s)
  {
    var s' := Apply(c, s, step);
    match step
    case Load =>
    case FetchFails =>
    case GiveUp =>
    case Fetch => FetchShrinks(s);
    case Send => MoveShrinks(s, s', |s.pages| - 1, Queued);
    case _ => MoveShrinks(s, s', step.i, Target(step));
  }

  /** Every interleaving ends: no run has more than 10 T + 3 steps. */
  lemma {:induction false} RunsAreFinite(c: Config, total: nat, steps: seq<Step>)
    requires CanRun(c, Init(c, total), steps)
    ensures 0 <= Potential(After(c, Init(c, total), steps)) <= 10 * total + 3 - |steps|
    ensures |steps| <= 10 * total + 3
  {
    if steps == [] {
    } else {
      var n := |steps| - 1;
      RunsAreFinite(c, total, steps[..n]);
      RunKeeps(c, total, steps[..n]);
      StepShrinks(c, After(c, Init(c, total), steps[..n]), steps[n]);
    }
    RunKeeps(c, total, steps);
    TiledOffset(After(c, Init(c, total), steps).pages, total);
  }

  /** All goroutines have returned: the producer closed the channel, and each worker found it
      empty or left with an error. */
  predicate Finished(s: Pool) {
    s.producer.Closed? && Sum(InHand, s.pages) == 0 && (Sum(InQueue, s.pages) == 0 || s.workers == 0)
  }

  lemma BusyCanStep(c: Config, s: Pool) returns (step: Step)
    requires Inv(c, s) && Sum(InHand, s.pages) > 0
    ensures Enabled(c, s, step) && (step.First? || step.Second? || step.Count?)
  {
    var i := FirstScoring(InHand, s.pages);
    step := match s.pages[i].at case Taken => First(i) case Half => Second(i) case _ => Count(i);
  }

  lemma QueuedCanStep(c: Config, s: Pool) returns (step: Step)
    requires Inv(c, s) && Sum(InQueue, s.pages) > 0 && s.workers > 0
    ensures Enabled(c, s, step) && (step.First? || step.Second? || step.Count? || step.Take?)
  {
    if Sum(InHand, s.pages) > 0 {
      step := BusyCanStep(c, s);
    } else {
      var i := FirstScoring(InQueue, s.pages);
      forall j | 0 <= j < i ensures !s.pages[j].at.Queued? { assert Score(InQueue, s.pages[j]) == 0; }
      step := Take(i);
    }
  }

  /** No deadlock: until all goroutines have returned, some step can be taken. */
  lemma NeverStuck(c: Config, s: Pool) returns (step: Step)
    requires Inv(c, s) && c.workers >= 1 && !Finished(s)
    ensures Enabled(c, s, step) && !step.FetchFails? && !step.Break? && (step.GiveUp? ==> s.failed)
  {
    if s.producer.Ready? {
      step := Load;
    } else if s.producer.Loaded? {
      step := Fetch;
    } else if s.producer.Holding? && Sum(InQueue, s.pages) < 2 * c.workers {
      step := Send;
    } else if s.producer.Holding? && s.workers == 0 {
      step := GiveUp;
    } else if Sum(InHand, s.pages) > 0 {
      step := BusyCanStep(c, s);
    } else {
      step := QueuedCanStep(c, s);
    }
  }

  /** No page will be fetched any more. */
  predicate Closing(s: Pool) {
    s.producer.Closed? || (s.producer.Holding? && s.pages != [] && Len(s.pages[|s.pages| - 1]) < PAGE)
  }

  lemma StepCloses(c: Config, s: Pool, step: Step)
    requires Inv(c, s) && Closing(s) && Enabled(c, s, step) && !step.Break?
    ensures Closing(Apply(c, s, step)) && Offset(Apply(c, s, step).pages) == Offset(s.pages)
  {
    if step.Send? {
      MoveFacts(s.pages, |s.pages| - 1, Queued, s.total);
    } else if WorkerStep(step) {
      MoveFacts(s.pages, step.i, Target(step), s.total);
    }
  }

  /** Any run, wherever it stands, goes on to a finished state, without an error if there was
      none before. */
  lemma {:induction false} CanFinish(c: Config, total: nat, steps: seq<Step>) returns (more: seq<Step>)
    requires CanRun(c, Init(c, total), steps) && c.workers >= 1
    ensures steps <= more && CanRun(c, Init(c, total), more) && Finished(After(c, Init(c, total), more))
    ensures var s, s' := After(c, Init(c, total), steps), After(c, Init(c, total), more);
            && (!s.failed ==> !s'.failed)
            && (Closing(s) ==> Offset(s'.pages) == Offset(s.pages))
    decreases 10 * total + 3 - |steps|
  {
    var s := After(c, Init(c, total), steps);
    RunKeeps(c, total, steps);
    if Finished(s) {
      more := steps;
    } else {
      var step := NeverStuck(c, s);
      Extend(c, Init(c, total), steps, step);
      RunsAreFinite(c, total, steps + [step]);
      if Closing(s) { StepCloses(c, s, step); }
      more := CanFinish(c, total, steps + [step]);
    }
  }

  // ---- what an error-free run does ----------------------------------------------------------

  lemma NothingLeft(pages: seq<Page>)
    requires Sum(InQueue, pages) == 0 && Sum(InHand, pages) == 0 && Sum(Lost, pages) == 0
    requires forall i | 0 <= i < |pages| :: !pages[i].at.Fetched?
    ensures forall i | 0 <= i < |pages| :: pages[i].at.Counted?
  {
    forall i | 0 <= i < |pages| ensures pages[i].at.Counted? {
      SumAtLeast(InQueue, pages, i);
      SumAtLeast(InHand, pages, i);
      SumAtLeast(Lost, pages, i);
    }
  }

  /** Every page of a finished, error-free run was worked through once; the counter is exact. */
  lemma AllCounted(c: Config, s: Pool)
    requires Inv(c, s) && Finished(s) && !s.failed && c.workers >= 1
    ensures forall i | 0 <= i < |s.pages| :: s.pages[i].at.Counted?
    ensures s.processed == Offset(s.pages)
  {
    NothingLeft(s.pages);
    NoneHeld(s.pages);
    ShortPages(s.pages, s.total);
    LagBound(s.pages);
  }

  /** A run without errors fetches at least min(L, T) rows and at most min(T, L + 1500 w):
      --limit is not an exact cap. Without a limit it fetches all T. */
  lemma LimitBound(c: Config, total: nat, steps: seq<Step>)
    requires CanRun(c, Init(c, total), steps) && c.workers >= 1
    requires var s := After(c, Init(c, total), steps); Finished(s) && !s.failed
    ensures var n := After(c, Init(c, total), steps).processed;
            if c.limit == 0 then n == total
            else Min(c.limit, total) <= n <= Min(total, c.limit + 1500 * c.workers)
  {
    var s := After(c, Init(c, total), steps);
    RunKeeps(c, total, steps);
    AllCounted(c, s);
    TiledOffset(s.pages, s.total);
  }
}
