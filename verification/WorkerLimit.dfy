/** What --limit bounds: it is a cap below one page, and from one page on the counter's lag is used
    up to the last row by some run. */
module WorkerLimit {
  import opened Basics
  import opened WorkerPool

  // ---- a limit below one page -----------------------------------------------------------------

  /** The first page is short, so the producer stops after it. */
  predicate OnePage(c: Config, s: Pool) {
    && |s.pages| <= 1 && (s.producer.Ready? || s.producer.Loaded? ==> s.pages == [])
    && (s.producer.Loaded? ==> s.producer.take <= c.limit)
    && Offset(s.pages) <= c.limit
  }

  lemma StepOnePage(c: Config, s: Pool, step: Step)
    requires 0 < c.limit < PAGE && Inv(c, s) && OnePage(c, s) && Enabled(c, s, step)
    ensures OnePage(c, Apply(c, s, step))
  {
    if step.Send? {
      assert InPlace(s.pages, 0, s.total);
      MoveFacts(s.pages, 0, Queued, s.total);
    } else if WorkerStep(step) {
      MoveFacts(s.pages, step.i, Target(step), s.total);
    }
  }

  lemma {:induction false} RunOnePage(c: Config, total: nat, steps: seq<Step>)
    requires 0 < c.limit < PAGE && CanRun(c, Init(c, total), steps)
    ensures OnePage(c, After(c, Init(c, total), steps))
  {
    if steps == [] {
    } else {
      var n := |steps| - 1;
      RunKeeps(c, total, steps[..n]);
      RunOnePage(c, total, steps[..n]);
      StepOnePage(c, After(c, Init(c, total), steps[..n]), steps[n]);
    }
  }

  // ---- the bound is attained ------------------------------------------------------------------

  /** k full pages: the first done are counted, the next w are with the workers, the rest wait
      in the channel. */
  function Line(k: nat, done: nat, w: nat): (pages: seq<Page>)
    ensures |pages| == k && forall i | 0 <= i < k :: pages[i] == Fresh(i, PlaceIn(i, done, w))
  {
    seq(k, i requires 0 <= i < k => Fresh(i, PlaceIn(i, done, w)))
  }

  function PlaceIn(i: nat, done: nat, w: nat): Place {
    if i < done then Counted else if i < done + w then Taken else Queued
  }

  function Fresh(k: nat, at: Place): Page {
    Page(500 * k, 500 * k + 500, at)
  }

  lemma {:induction false} LineSums(k: nat, done: nat, w: nat)
    requires done <= k
    ensures Sum(InQueue, Line(k, done, w)) == (if k <= done + w then 0 else k - done - w)
    ensures Sum(InHand, Line(k, done, w)) == Min(k - done, w)
    ensures Offset(Line(k, done, w)) == 500 * k
  {
    if k == 0 {
    } else if done == k {
      CountedLine(k, w);
    } else {
      LineSums(k - 1, done, w);
      assert Line(k, done, w)[..k - 1] == Line(k - 1, done, w);
    }
  }

  lemma {:induction false} CountedLine(k: nat, w: nat)
    ensures Sum(InQueue, Line(k, k, w)) == 0 && Sum(InHand, Line(k, k, w)) == 0
  {
    if k == 0 {
    } else {
      CountedLine(k - 1, w);
      assert Line(k, k, w)[..k - 1] == Line(k - 1, k - 1, w);
    }
  }

  /** The channel holds 2 w pages and the workers w, so page k goes in once k - 3 w are done. */
  function Drained(k: nat, w: nat): nat {
    if k <= 3 * w then 0 else k - 3 * w
  }

  function Flow(w: nat, total: nat, k: nat): Pool {
    Pool(total, Line(k, Drained(k, w), w), Ready, 500 * Drained(k, w), w, false)
  }

  /** Flow(w, total, k) with a page in the producer's hands. */
  function FlowHeld(w: nat, total: nat, k: nat): Pool {
    Flow(w, total, k).(producer := Holding, pages := Flow(w, total, k).pages + [Fresh(k, Fetched)])
  }

  lemma LoadFull(c: Config, total: nat, k: nat)
    requires 500 * k + 500 <= total && 500 * Drained(k, c.workers) + 500 <= c.limit
    ensures var s := Flow(c.workers, total, k);
            && DoLoad(c, s) == s.(producer := Loaded(500))
            && DoFetch(s.(producer := Loaded(500))) == FlowHeld(c.workers, total, k)
  {
    LineSums(k, Drained(k, c.workers), c.workers);
  }

  lemma SendEarly(c: Config, total: nat, k: nat)
    requires k < 3 * c.workers
    ensures var s := FlowHeld(c.workers, total, k);
            && Enabled(c, s, Send)
            && DoSend(s) == Flow(c.workers, total, k).(pages := Line(k, 0, c.workers) + [Fresh(k, Queued)])
  {
    LineSums(k, 0, c.workers);
    SumAppend(InQueue, Line(k, 0, c.workers), Fresh(k, Fetched));
    assert Move(Line(k, 0, c.workers) + [Fresh(k, Fetched)], k, Queued)
        == Line(k, 0, c.workers) + [Fresh(k, Queued)];
  }

  lemma TakeEarlyPages(k: nat, w: nat)
    ensures k < w ==> Move(Line(k, 0, w) + [Fresh(k, Queued)], k, Taken) == Line(k + 1, 0, w)
    ensures k >= w ==> Line(k, 0, w) + [Fresh(k, Queued)] == Line(k + 1, 0, w)
  {
  }

  lemma TakeEarly(c: Config, total: nat, k: nat)
    requires k < 3 * c.workers
    ensures var s := Flow(c.workers, total, k).(pages := Line(k, 0, c.workers) + [Fresh(k, Queued)]);
            if k < c.workers
            then Enabled(c, s, Take(k)) && s.(pages := Move(s.pages, k, Taken)) == Flow(c.workers, total, k + 1)
            else s == Flow(c.workers, total, k + 1)
  {
    var w := c.workers;
    LineSums(k, 0, w);
    SumAppend(InHand, Line(k, 0, w), Fresh(k, Queued));
    TakeEarlyPages(k, w);
  }

  /** Pages of the held state once the oldest taken page has been worked through up to at. */
  function Worked(w: nat, k: nat, at: Place): seq<Page>
    requires 1 <= w && 3 * w <= k
  {
    Move(Line(k, k - 3 * w, w) + [Fresh(k, Fetched)], k - 3 * w, at)
  }

  function WorkedPool(w: nat, total: nat, k: nat, at: Place): Pool
    requires 1 <= w && 3 * w <= k
  {
    Pool(total, Worked(w, k, at), Holding, 500 * if at.Counted? then k - 3 * w + 1 else k - 3 * w, w, false)
  }

  lemma WorkOldest(c: Config, total: nat, k: nat)
    requires 1 <= c.workers && 3 * c.workers <= k
    ensures var w, i := c.workers, k - 3 * c.workers;
            && FlowHeld(w, total, k) == WorkedPool(w, total, k, Taken)
            && Enabled(c, WorkedPool(w, total, k, Taken), First(i))
            && Apply(c, WorkedPool(w, total, k, Taken), First(i)) == WorkedPool(w, total, k, Half)
            && Enabled(c, WorkedPool(w, total, k, Half), Second(i))
            && Apply(c, WorkedPool(w, total, k, Half), Second(i)) == WorkedPool(w, total, k, Marked)
            && Enabled(c, WorkedPool(w, total, k, Marked), Count(i))
            && Apply(c, WorkedPool(w, total, k, Marked), Count(i)) == WorkedPool(w, total, k, Counted)
  {
    var w, i := c.workers, k - 3 * c.workers;
    assert FlowHeld(w, total, k).pages == Worked(w, k, Taken);
    assert Move(Worked(w, k, Taken), i, Half) == Worked(w, k, Half);
    assert Move(Worked(w, k, Half), i, Marked) == Worked(w, k, Marked);
    assert Move(Worked(w, k, Marked), i, Counted) == Worked(w, k, Counted);
  }

  lemma OneHandFree(w: nat, k: nat)
    requires 1 <= w && 3 * w <= k
    ensures Sum(InHand, Worked(w, k, Counted)) == w - 1
  {
    LineSums(k, k - 3 * w, w);
    SumAppend(InHand, Line(k, k - 3 * w, w), Fresh(k, Fetched));
    SumMove(InHand, Line(k, k - 3 * w, w) + [Fresh(k, Fetched)], k - 3 * w, Counted);
  }

  lemma TakeLatePages(w: nat, k: nat)
    requires 1 <= w && 3 * w <= k
    ensures var i, pages := k - 3 * w, Worked(w, k, Counted);
            && pages[i + w].at.Queued? && (forall j | 0 <= j < i + w :: !pages[j].at.Queued?)
            && Move(pages, i + w, Taken) == Line(k, i + 1, w) + [Fresh(k, Fetched)]
  {
    var i, pages := k - 3 * w, Worked(w, k, Counted);
    assert Move(pages, i + w, Taken) == Line(k, i + 1, w) + [Fresh(k, Fetched)];
  }

  /** Then the worker takes the oldest page in the channel. */
  function RetakenPool(w: nat, total: nat, k: nat): Pool
    requires 1 <= w && 3 * w <= k
  {
    Pool(total, Line(k, k - 3 * w + 1, w) + [Fresh(k, Fetched)], Holding, 500 * (k - 3 * w + 1), w, false)
  }

  lemma TakeLate(c: Config, total: nat, k: nat)
    requires 1 <= c.workers && 3 * c.workers <= k
    ensures var w, i := c.workers, k - 3 * c.workers;
            var s := WorkedPool(w, total, k, Counted);
            Enabled(c, s, Take(i + w)) && Apply(c, s, Take(i + w)) == RetakenPool(w, total, k)
  {
    OneHandFree(c.workers, k);
    TakeLatePages(c.workers, k);
  }

  lemma SendLate(c: Config, total: nat, k: nat)
    requires 1 <= c.workers && 3 * c.workers <= k
    ensures var s := RetakenPool(c.workers, total, k);
            Enabled(c, s, Send) && DoSend(s) == Flow(c.workers, total, k + 1)
  {
    var w, i := c.workers, k - 3 * c.workers;
    LineSums(k, i + 1, w);
    SumAppend(InQueue, Line(k, i + 1, w), Fresh(k, Fetched));
    assert Move(Line(k, i + 1, w) + [Fresh(k, Fetched)], k, Queued) == Line(k + 1, i + 1, w);
  }

  /** Some run leads from the start to s. */
  ghost predicate Reaches(c: Config, total: nat, s: Pool) {
    exists steps :: CanRun(c, Init(c, total), steps) && After(c, Init(c, total), steps) == s
  }

  lemma ReachesNext(c: Config, total: nat, s: Pool, step: Step)
    requires Reaches(c, total, s) && Enabled(c, s, step)
    ensures Reaches(c, total, Apply(c, s, step))
  {
    var steps :| CanRun(c, Init(c, total), steps) && After(c, Init(c, total), steps) == s;
    Extend(c, Init(c, total), steps, step);
  }

  lemma OneMoreEarly(c: Config, total: nat, k: nat)
    requires k < 3 * c.workers && Reaches(c, total, FlowHeld(c.workers, total, k))
    ensures Reaches(c, total, Flow(c.workers, total, k + 1))
  {
    SendEarly(c, total, k);
    TakeEarly(c, total, k);
    ReachesNext(c, total, FlowHeld(c.workers, total, k), Send);
    var s := DoSend(FlowHeld(c.workers, total, k));
    if k < c.workers { ReachesNext(c, total, s, Take(k)); }
  }

  lemma OldestCounted(c: Config, total: nat, k: nat)
    requires 1 <= c.workers && 3 * c.workers <= k && Reaches(c, total, FlowHeld(c.workers, total, k))
    ensures Reaches(c, total, WorkedPool(c.workers, total, k, Counted))
  {
    var w, i := c.workers, k - 3 * c.workers;
    WorkOldest(c, total, k);
    ReachesNext(c, total, WorkedPool(w, total, k, Taken), First(i));
    ReachesNext(c, total, WorkedPool(w, total, k, Half), Second(i));
    ReachesNext(c, total, WorkedPool(w, total, k, Marked), Count(i));
  }

  lemma NextTaken(c: Config, total: nat, k: nat)
    requires 1 <= c.workers && 3 * c.workers <= k && Reaches(c, total, WorkedPool(c.workers, total, k, Counted))
    ensures Reaches(c, total, RetakenPool(c.workers, total, k))
  {
    TakeLate(c, total, k);
    ReachesNext(c, total, WorkedPool(c.workers, total, k, Counted), Take(k - 2 * c.workers));
  }

  lemma OneMoreLate(c: Config, total: nat, k: nat)
    requires 1 <= c.workers && 3 * c.workers <= k && Reaches(c, total, RetakenPool(c.workers, total, k))
    ensures Reaches(c, total, Flow(c.workers, total, k + 1))
  {
    SendLate(c, total, k);
    ReachesNext(c, total, RetakenPool(c.workers, total, k), Send);
  }

  lemma OneMoreHeld(c: Config, total: nat, k: nat)
    requires 500 * k + 500 <= total && 500 * Drained(k, c.workers) + 500 <= c.limit
    requires Reaches(c, total, Flow(c.workers, total, k))
    ensures Reaches(c, total, FlowHeld(c.workers, total, k))
  {
    LoadFull(c, total, k);
    ReachesNext(c, total, Flow(c.workers, total, k), Load);
    ReachesNext(c, total, DoLoad(c, Flow(c.workers, total, k)), Fetch);
  }

  lemma OneMore(c: Config, total: nat, k: nat)
    requires c.workers >= 1 && 500 * k + 500 <= total && 500 * Drained(k, c.workers) + 500 <= c.limit
    requires Reaches(c, total, Flow(c.workers, total, k))
    ensures Reaches(c, total, Flow(c.workers, total, k + 1))
  {
    OneMoreHeld(c, total, k);
    if k < 3 * c.workers {
      OneMoreEarly(c, total, k);
    } else {
      OldestCounted(c, total, k);
      NextTaken(c, total, k);
      OneMoreLate(c, total, k);
    }
  }

  lemma StartReached(c: Config, total: nat)
    ensures Reaches(c, total, Flow(c.workers, total, 0))
  {
    assert CanRun(c, Init(c, total), []) && After(c, Init(c, total), []) == Init(c, total);
    assert Flow(c.workers, total, 0) == Init(c, total);
  }

  /** Pages of 500 go out as long as the counter leaves room for one. */
  lemma {:induction false} FlowReached(c: Config, total: nat, k: nat)
    requires c.workers >= 1 && c.limit >= 500 && 500 * k <= total
    requires k > 0 ==> 500 * Drained(k - 1, c.workers) + 500 <= c.limit
    ensures Reaches(c, total, Flow(c.workers, total, k))
  {
    if k == 0 {
      StartReached(c, total);
    } else {
      FlowReached(c, total, k - 1);
      OneMore(c, total, k - 1);
    }
  }

  /** The last page is short, or there is none. */
  lemma LastPage(c: Config, total: nat, k: nat)
    requires 500 * k <= total && c.limit > 0
    requires || (total < 500 * k + 500 && 500 * Drained(k, c.workers) + 500 <= c.limit)
             || (k >= 3 * c.workers && 0 <= c.limit - 500 * (k - 3 * c.workers) < 500)
    requires Reaches(c, total, Flow(c.workers, total, k))
    ensures exists s :: Reaches(c, total, s) && Closing(s) && !s.failed
                        && Offset(s.pages) == Min(total, c.limit + 1500 * c.workers)
  {
    var s := Flow(c.workers, total, k);
    LineSums(k, Drained(k, c.workers), c.workers);
    ReachesNext(c, total, s, Load);
    var loaded := DoLoad(c, s);
    if loaded.producer.Closed? {
      assert Offset(loaded.pages) == 500 * k && k >= 3 * c.workers;
    } else {
      LastFetch(c, total, k, loaded.producer.take);
      ReachesNext(c, total, loaded, Fetch);
    }
  }

  lemma LastFetch(c: Config, total: nat, k: nat, take: nat)
    requires 500 * k <= total && 1 <= take <= 500 && (take < 500 || total < 500 * k + 500)
    ensures var s := DoFetch(Flow(c.workers, total, k).(producer := Loaded(take)));
            Closing(s) && !s.failed && Offset(s.pages) == Min(total, 500 * k + take)
  {
    LineSums(k, Drained(k, c.workers), c.workers);
  }

  /** The bound is attained for every limit from 500 on, every number of workers and rows: the
      producer keeps 3 w uncounted pages out. */
  lemma LimitBoundIsTight(c: Config, total: nat) returns (steps: seq<Step>)
    requires c.limit >= 500 && c.workers >= 1
    ensures CanRun(c, Init(c, total), steps)
    ensures var s := After(c, Init(c, total), steps);
            Finished(s) && !s.failed && s.processed == Min(total, c.limit + 1500 * c.workers)
  {
    var k := Min(total / 500, c.limit / 500 + 3 * c.workers);
    FlowReached(c, total, k);
    LastPage(c, total, k);
    var last :| Reaches(c, total, last) && Closing(last) && !last.failed
                && Offset(last.pages) == Min(total, c.limit + 1500 * c.workers);
    var prefix :| CanRun(c, Init(c, total), prefix) && After(c, Init(c, total), prefix) == last;
    steps := CanFinish(c, total, prefix);
    RunKeeps(c, total, steps);
    AllCounted(c, After(c, Init(c, total), steps));
  }

  /** This run, finished and without errors, stays within the limit. */
  ghost predicate Capped(c: Config, total: nat, steps: seq<Step>) {
    CanRun(c, Init(c, total), steps) ==>
      var s := After(c, Init(c, total), steps);
      Finished(s) && !s.failed ==> s.processed <= c.limit
  }

  /** --limit L is a cap in every interleaving exactly when L is below a page or there are no
      more than L rows; below a page exactly min(L, T) rows are processed. */
  lemma LimitIsCapIff(c: Config, total: nat)
    requires c.limit > 0 && c.workers >= 1
    ensures (forall steps :: Capped(c, total, steps)) <==> c.limit < 500 || total <= c.limit
    ensures c.limit < 500 ==>
              forall steps | CanRun(c, Init(c, total), steps) ::
                var s := After(c, Init(c, total), steps);
                Finished(s) && !s.failed ==> s.processed == Min(c.limit, total)
  {
    if c.limit < 500 || total <= c.limit {
      forall steps | CanRun(c, Init(c, total), steps)
        ensures Capped(c, total, steps)
        ensures var s := After(c, Init(c, total), steps);
                Finished(s) && !s.failed && c.limit < 500 ==> s.processed == Min(c.limit, total)
      {
        CapHolds(c, total, steps);
      }
    } else {
      var steps := LimitBoundIsTight(c, total);
      assert !Capped(c, total, steps);
    }
  }

  lemma CapHolds(c: Config, total: nat, steps: seq<Step>)
    requires c.limit > 0 && c.workers >= 1 && CanRun(c, Init(c, total), steps)
    requires c.limit < 500 || total <= c.limit
    ensures var s := After(c, Init(c, total), steps);
            Finished(s) && !s.failed ==>
              s.processed <= c.limit && (c.limit < 500 ==> s.processed == Min(c.limit, total))
  {
    var s := After(c, Init(c, total), steps);
    if Finished(s) && !s.failed {
      LimitBound(c, total, steps);
      RunKeeps(c, total, steps);
      AllCounted(c, s);
      if c.limit < 500 { RunOnePage(c, total, steps); }
    }
  }
}
