/** The totals a backfill prints. A page's counts are taken when its statements run, added to the
    shared counters when the page is done and lost when its worker gives up. */
module BackfillCounters {
  import opened Basics
  import opened WorkerPool
  import opened BackfillRows

  /** What a statement counts for one row, as fetched and as stored. */
  datatype Meter<!R> = Meter(first: (R, R) -> int, second: (R, R) -> int)

  /** got[i] is what page i has counted so far; total is the shared counter. */
  datatype Ledger = Ledger(got: seq<int>, total: int)

  function SumOf<R>(g: R -> int, rows: seq<R>): int {
    if rows == [] then 0 else SumOf(g, rows[..|rows| - 1]) + g(rows[|rows| - 1])
  }

  /** A statement's count over the rows lo.. of a page. */
  function PageCount<R>(g: (R, R) -> int, rows: seq<R>, lo: nat, snap: seq<R>): int
    requires lo + |snap| <= |rows|
  {
    if snap == [] then 0
    else
      var n := |snap| - 1;
      PageCount(g, rows, lo, snap[..n]) + g(snap[n], rows[lo + n])
  }

  /** What one row adds in a run that gets to it. */
  function Gain<R>(job: Job<R>, m: Meter<R>): R -> int {
    o => m.first(o, o) + m.second(o, job.first(o, o))
  }

  lemma {:induction false} SumOfConcat<R>(g: R -> int, a: seq<R>, b: seq<R>)
    ensures SumOf(g, a + b) == SumOf(g, a) + SumOf(g, b)
  {
    if b == [] {
      assert a + b == a;
    } else {
      var n := |b| - 1;
      assert (a + b)[..|a + b| - 1] == a + b[..n];
      SumOfConcat(g, a, b[..n]);
    }
  }

  lemma {:induction false} SumOfPointwise<R>(f: R -> int, g: R -> int, a: seq<R>, b: seq<R>)
    requires |a| == |b| && forall k | 0 <= k < |a| :: f(a[k]) == g(b[k])
    ensures SumOf(f, a) == SumOf(g, b)
  {
    if a == [] {
    } else {
      SumOfPointwise(f, g, a[..|a| - 1], b[..|b| - 1]);
    }
  }

  lemma {:induction false} SumOfBounds<R>(f: R -> int, g: R -> int, rows: seq<R>)
    requires forall k | 0 <= k < |rows| :: 0 <= f(rows[k]) <= g(rows[k])
    ensures 0 <= SumOf(f, rows) <= SumOf(g, rows)
  {
    if rows == [] {
    } else {
      SumOfBounds(f, g, rows[..|rows| - 1]);
    }
  }

  lemma {:induction false} PageCountIsSum<R>(g: (R, R) -> int, v: R -> int, rows: seq<R>, lo: nat, snap: seq<R>)
    requires lo + |snap| <= |rows|
    requires forall k | 0 <= k < |snap| :: g(snap[k], rows[lo + k]) == v(snap[k])
    ensures PageCount(g, rows, lo, snap) == SumOf(v, snap)
  {
    if snap == [] {
    } else {
      PageCountIsSum(g, v, rows, lo, snap[..|snap| - 1]);
    }
  }

  lemma {:induction false} PageCountOfSlice<R>(f: R -> int, g: (R, R) -> int, rows: seq<R>, lo: nat, snap: seq<R>)
    requires lo + |snap| <= |rows|
    requires forall k | 0 <= k < |snap| :: g(snap[k], rows[lo + k]) == f(rows[lo + k])
    ensures SumOf(f, rows[lo..lo + |snap|]) == PageCount(g, rows, lo, snap)
  {
    if snap == [] {
    } else {
      var n := |snap| - 1;
      assert rows[lo..lo + n + 1][..n] == rows[lo..lo + n];
      PageCountOfSlice(f, g, rows, lo, snap[..n]);
    }
  }

  /** A count over the whole table that only rows of one page add to. */
  lemma OnlyThePage<R>(f: R -> int, g: (R, R) -> int, rows: seq<R>, lo: nat, snap: seq<R>)
    requires lo + |snap| <= |rows|
    requires forall k | 0 <= k < |snap| :: g(snap[k], rows[lo + k]) == f(rows[lo + k])
    requires forall k | 0 <= k < |rows| && !(lo <= k < lo + |snap|) :: f(rows[k]) == 0
    ensures SumOf(f, rows) == PageCount(g, rows, lo, snap)
  {
    var hi := lo + |snap|;
    NoGainRows(f, rows[..lo]);
    NoGainRows(f, rows[hi..]);
    PageCountOfSlice(f, g, rows, lo, snap);
    SumOfConcat(f, rows[..lo], rows[lo..hi]);
    SumOfConcat(f, rows[..lo] + rows[lo..hi], rows[hi..]);
    assert rows == rows[..lo] + rows[lo..hi] + rows[hi..];
  }

  // ---- a run's counters -------------------------------------------------------------------

  predicate Room<R>(s: Pool, t: Table<R>) {
    && |t.snaps| == |s.pages|
    && forall i | 0 <= i < |s.pages| :: s.pages[i].lo + |t.snaps[i]| <= |t.rows|
  }

  function LedgerStep<R>(c: Config, m: Meter<R>, s: Pool, t: Table<R>, l: Ledger, step: Step): (l': Ledger)
    requires Enabled(c, s, step) && Room(s, t) && |l.got| == |s.pages|
    ensures |l'.got| == |Apply(c, s, step).pages|
  {
    match step
    case Fetch => if |Apply(c, s, step).pages| > |s.pages| then l.(got := l.got + [0]) else l
    case First(i) => l.(got := l.got[i := PageCount(m.first, t.rows, s.pages[i].lo, t.snaps[i])])
    case Second(i) => l.(got := l.got[i := l.got[i] + PageCount(m.second, t.rows, s.pages[i].lo, t.snaps[i])])
    case Count(i) => l.(total := l.total + l.got[i])
    case _ => l
  }

  lemma RowsOkRoom<R>(job: Job<R>, orig: seq<R>, s: Pool, t: Table<R>)
    requires RowsOk(job, orig, s.pages, t)
    ensures Room(s, t)
  {
    forall i | 0 <= i < |s.pages| ensures s.pages[i].lo + |t.snaps[i]| <= |t.rows| {
      assert PageOk(job, orig, s.pages, t, i) && InPlace(s.pages, i, |orig|);
    }
  }

  lemma RunRoom<R>(c: Config, job: Job<R>, orig: seq<R>, steps: seq<Step>)
    requires CanRun(c, Init(c, |orig|), steps)
    ensures Room(After(c, Init(c, |orig|), steps), TableAfter(c, job, orig, steps))
  {
    RunRows(c, job, orig, steps);
    RowsOkRoom(job, orig, After(c, Init(c, |orig|), steps), TableAfter(c, job, orig, steps));
  }

  /** The ledger after a run. */
  function LedgerAfter<R>(c: Config, job: Job<R>, m: Meter<R>, orig: seq<R>, steps: seq<Step>): (l: Ledger)
    requires CanRun(c, Init(c, |orig|), steps)
    ensures |l.got| == |After(c, Init(c, |orig|), steps).pages|
  {
    if steps == [] then Ledger([], 0)
    else
      var n := |steps| - 1;
      var before := LedgerAfter(c, job, m, orig, steps[..n]);
      RunRoom(c, job, orig, steps[..n]);
      LedgerStep(c, m, After(c, Init(c, |orig|), steps[..n]), TableAfter(c, job, orig, steps[..n]), before, steps[n])
  }

  /** The gains of the counted pages. */
  function CountedSum<R>(v: R -> int, orig: seq<R>, pages: seq<Page>): int {
    if pages == [] then 0
    else
      var p := pages[|pages| - 1];
      CountedSum(v, orig, pages[..|pages| - 1])
      + if p.at.Counted? && p.lo <= p.hi <= |orig| then SumOf(v, orig[p.lo..p.hi]) else 0
  }

  lemma {:induction false} CountedSumMove<R>(v: R -> int, orig: seq<R>, pages: seq<Page>, i: nat, at: Place)
    requires i < |pages| && !pages[i].at.Counted? && pages[i].lo <= pages[i].hi <= |orig|
    ensures CountedSum(v, orig, Move(pages, i, at))
            == CountedSum(v, orig, pages) + if at.Counted? then SumOf(v, orig[pages[i].lo..pages[i].hi]) else 0
  {
    var n := |pages| - 1;
    if i == n {
      assert Move(pages, i, at)[..n] == pages[..n];
    } else {
      CountedSumMove(v, orig, pages[..n], i, at);
      assert Move(pages, i, at)[..n] == Move(pages[..n], i, at);
    }
  }

  /** What page i has counted, given its place. */
  predicate GotOk<R>(job: Job<R>, m: Meter<R>, orig: seq<R>, p: Page, got: int)
    requires p.lo <= p.hi <= |orig|
  {
    match p.at
    case Half => got == SumOf((o: R) => m.first(o, o), orig[p.lo..p.hi])
    case Marked => got == SumOf(Gain(job, m), orig[p.lo..p.hi])
    case _ => true
  }

  predicate PageGot<R>(job: Job<R>, m: Meter<R>, orig: seq<R>, pages: seq<Page>, l: Ledger, i: nat)
    requires i < |pages| == |l.got| && Tiled(pages, |orig|)
  {
    assert InPlace(pages, i, |orig|);
    GotOk(job, m, orig, pages[i], l.got[i])
  }

  predicate LedgerOk<R>(job: Job<R>, m: Meter<R>, orig: seq<R>, pages: seq<Page>, l: Ledger) {
    && |l.got| == |pages| && Tiled(pages, |orig|)
    && (forall i | 0 <= i < |pages| :: PageGot(job, m, orig, pages, l, i))
    && l.total == CountedSum(Gain(job, m), orig, pages)
  }

  /** A step that moves page i and sets what it has counted. */
  lemma MoveLedger<R>(job: Job<R>, m: Meter<R>, orig: seq<R>, s: Pool, s': Pool, l: Ledger, i: nat, at: Place, got: int)
    requires LedgerOk(job, m, orig, s.pages, l) && s.total == |orig| && Moved(s, s', i, at)
    requires InPlace(s.pages, i, |orig|) && GotOk(job, m, orig, s.pages[i].(at := at), got)
    requires !at.Counted? && !s.pages[i].at.Counted?
    ensures LedgerOk(job, m, orig, s'.pages, l.(got := l.got[i := got]))
  {
    MoveFacts(s.pages, i, at, s.total);
    CountedSumMove(Gain(job, m), orig, s.pages, i, at);
    var l' := l.(got := l.got[i := got]);
    forall j | 0 <= j < |s'.pages| ensures PageGot(job, m, orig, s'.pages, l', j) {
      assert PageGot(job, m, orig, s.pages, l, j);
    }
  }

  lemma CountLedger<R>(job: Job<R>, m: Meter<R>, orig: seq<R>, s: Pool, s': Pool, l: Ledger, i: nat)
    requires LedgerOk(job, m, orig, s.pages, l) && s.total == |orig| && Moved(s, s', i, Counted)
    requires InPlace(s.pages, i, |orig|) && s.pages[i].at.Marked?
    ensures LedgerOk(job, m, orig, s'.pages, l.(total := l.total + l.got[i]))
  {
    MoveFacts(s.pages, i, Counted, s.total);
    CountedSumMove(Gain(job, m), orig, s.pages, i, Counted);
    assert PageGot(job, m, orig, s.pages, l, i);
    var l' := l.(total := l.total + l.got[i]);
    forall j | 0 <= j < |s'.pages| ensures PageGot(job, m, orig, s'.pages, l', j) {
      assert PageGot(job, m, orig, s.pages, l, j);
    }
  }

  lemma FetchLedger<R>(job: Job<R>, m: Meter<R>, orig: seq<R>, pages: seq<Page>, p: Page, l: Ledger)
    requires LedgerOk(job, m, orig, pages, l) && p.at.Fetched? && Tiled(pages + [p], |orig|)
    ensures LedgerOk(job, m, orig, pages + [p], l.(got := l.got + [0]))
  {
    assert (pages + [p])[..|pages|] == pages;
    var l' := l.(got := l.got + [0]);
    forall j | 0 <= j < |pages + [p]| ensures PageGot(job, m, orig, pages + [p], l', j) {
      if j < |pages| { assert PageGot(job, m, orig, pages, l, j); }
    }
  }

  /** What the first statement of a taken page counts. */
  lemma FirstCount<R>(job: Job<R>, m: Meter<R>, orig: seq<R>, pages: seq<Page>, t: Table<R>, i: nat)
    requires RowsOk(job, orig, pages, t) && i < |pages| && pages[i].at.Taken?
    ensures InPlace(pages, i, |orig|) && pages[i].lo + |t.snaps[i]| <= |t.rows|
    ensures PageCount(m.first, t.rows, pages[i].lo, t.snaps[i])
            == SumOf((o: R) => m.first(o, o), orig[pages[i].lo..pages[i].hi])
  {
    assert InPlace(pages, i, |orig|) && PageOk(job, orig, pages, t, i);
    var lo, snap := pages[i].lo, t.snaps[i];
    forall k | lo <= k < pages[i].hi ensures t.rows[k] == orig[k] {
      assert RowAt(job, orig[k], t.rows[k], pages[i].at);
    }
    PageCountIsSum(m.first, (o: R) => m.first(o, o), t.rows, lo, snap);
  }

  lemma SecondCount<R>(job: Job<R>, m: Meter<R>, orig: seq<R>, pages: seq<Page>, t: Table<R>, i: nat)
    requires RowsOk(job, orig, pages, t) && i < |pages| && pages[i].at.Half?
    ensures InPlace(pages, i, |orig|) && pages[i].lo + |t.snaps[i]| <= |t.rows|
    ensures PageCount(m.second, t.rows, pages[i].lo, t.snaps[i])
            == SumOf((o: R) => m.second(o, job.first(o, o)), orig[pages[i].lo..pages[i].hi])
  {
    assert InPlace(pages, i, |orig|) && PageOk(job, orig, pages, t, i);
    var lo, snap := pages[i].lo, t.snaps[i];
    forall k | lo <= k < pages[i].hi ensures t.rows[k] == job.first(orig[k], orig[k]) {
      assert RowAt(job, orig[k], t.rows[k], pages[i].at);
    }
    PageCountIsSum(m.second, (o: R) => m.second(o, job.first(o, o)), t.rows, lo, snap);
  }

  lemma {:induction false} GainSplits<R>(job: Job<R>, m: Meter<R>, rows: seq<R>)
    ensures SumOf(Gain(job, m), rows)
            == SumOf((o: R) => m.first(o, o), rows) + SumOf((o: R) => m.second(o, job.first(o, o)), rows)
  {
    if rows == [] {
    } else {
      GainSplits(job, m, rows[..|rows| - 1]);
    }
  }

  lemma FirstLedger<R>(c: Config, job: Job<R>, m: Meter<R>, orig: seq<R>, s: Pool, t: Table<R>, l: Ledger, i: nat)
    requires Enabled(c, s, First(i)) && s.total == |orig| && RowsOk(job, orig, s.pages, t)
    requires LedgerOk(job, m, orig, s.pages, l) && Room(s, t)
    ensures LedgerOk(job, m, orig, Apply(c, s, First(i)).pages, LedgerStep(c, m, s, t, l, First(i)))
  {
    FirstCount(job, m, orig, s.pages, t, i);
    MoveLedger(job, m, orig, s, Apply(c, s, First(i)), l, i, Half,
               PageCount(m.first, t.rows, s.pages[i].lo, t.snaps[i]));
  }

  lemma SecondLedger<R>(c: Config, job: Job<R>, m: Meter<R>, orig: seq<R>, s: Pool, t: Table<R>, l: Ledger, i: nat)
    requires Enabled(c, s, Second(i)) && s.total == |orig| && RowsOk(job, orig, s.pages, t)
    requires LedgerOk(job, m, orig, s.pages, l) && Room(s, t)
    ensures LedgerOk(job, m, orig, Apply(c, s, Second(i)).pages, LedgerStep(c, m, s, t, l, Second(i)))
  {
    assert PageGot(job, m, orig, s.pages, l, i);
    SecondCount(job, m, orig, s.pages, t, i);
    GainSplits(job, m, orig[s.pages[i].lo..s.pages[i].hi]);
    MoveLedger(job, m, orig, s, Apply(c, s, Second(i)), l, i, Marked,
               l.got[i] + PageCount(m.second, t.rows, s.pages[i].lo, t.snaps[i]));
  }

  lemma OtherLedger<R>(c: Config, job: Job<R>, m: Meter<R>, orig: seq<R>,
                       s: Pool, l: Ledger, i: nat, at: Place, s': Pool)
    requires s.total == |orig| && LedgerOk(job, m, orig, s.pages, l) && Moved(s, s', i, at)
    requires (at.Queued? || at.Taken? || at.Broken?) && !s.pages[i].at.Counted?
    ensures LedgerOk(job, m, orig, s'.pages, l)
  {
    assert InPlace(s.pages, i, |orig|);
    MoveLedger(job, m, orig, s, s', l, i, at, l.got[i]);
    assert l.(got := l.got[i := l.got[i]]) == l;
  }

  lemma StepLedger<R>(c: Config, job: Job<R>, m: Meter<R>, orig: seq<R>, s: Pool, t: Table<R>, l: Ledger, step: Step)
    requires Inv(c, s) && Enabled(c, s, step) && s.total == |orig| && RowsOk(job, orig, s.pages, t) && Room(s, t)
    requires LedgerOk(job, m, orig, s.pages, l)
    ensures LedgerOk(job, m, orig, Apply(c, s, step).pages, LedgerStep(c, m, s, t, l, step))
  {
    var s' := Apply(c, s, step);
    match step
    case Load =>
    case FetchFails =>
    case GiveUp =>
    case Fetch => FetchedLedger(c, job, m, orig, s, l);
    case Send => OtherLedger(c, job, m, orig, s, l, |s.pages| - 1, Queued, s');
    case Take(i) => OtherLedger(c, job, m, orig, s, l, i, Taken, s');
    case First(i) => FirstLedger(c, job, m, orig, s, t, l, i);
    case Second(i) => SecondLedger(c, job, m, orig, s, t, l, i);
    case Count(i) =>
      assert InPlace(s.pages, i, |orig|);
      CountLedger(job, m, orig, s, s', l, i);
    case Break(i) => OtherLedger(c, job, m, orig, s, l, i, Broken, s');
  }

  lemma FetchedLedger<R>(c: Config, job: Job<R>, m: Meter<R>, orig: seq<R>, s: Pool, l: Ledger)
    requires Inv(c, s) && s.producer.Loaded? && s.total == |orig| && LedgerOk(job, m, orig, s.pages, l)
    ensures LedgerOk(job, m, orig, DoFetch(s).pages,
                     if |DoFetch(s).pages| > |s.pages| then l.(got := l.got + [0]) else l)
  {
    if |DoFetch(s).pages| > |s.pages| {
      var p := Page(Offset(s.pages), Min(Offset(s.pages) + s.producer.take, s.total), Place.Fetched);
      TiledAppend(s.pages, s.total, p);
      FetchLedger(job, m, orig, s.pages, p, l);
    }
  }

  /** Wherever a run stops the shared counter is the gain of the pages counted so far, each row's
      gain taken at its value before the run, whatever the interleaving. */
  lemma {:induction false} RunLedger<R>(c: Config, job: Job<R>, m: Meter<R>, orig: seq<R>, steps: seq<Step>)
    requires CanRun(c, Init(c, |orig|), steps)
    ensures LedgerOk(job, m, orig, After(c, Init(c, |orig|), steps).pages, LedgerAfter(c, job, m, orig, steps))
  {
    if steps == [] {
    } else {
      var n := |steps| - 1;
      var s, t := After(c, Init(c, |orig|), steps[..n]), TableAfter(c, job, orig, steps[..n]);
      RunLedger(c, job, m, orig, steps[..n]);
      RunKeeps(c, |orig|, steps[..n]);
      RunRows(c, job, orig, steps[..n]);
      RunRoom(c, job, orig, steps[..n]);
      StepLedger(c, job, m, orig, s, t, LedgerAfter(c, job, m, orig, steps[..n]), steps[n]);
    }
  }

  lemma {:induction false} AllCountedSum<R>(v: R -> int, orig: seq<R>, pages: seq<Page>)
    requires Tiled(pages, |orig|) && forall i | 0 <= i < |pages| :: pages[i].at.Counted?
    ensures Offset(pages) <= |orig| && CountedSum(v, orig, pages) == SumOf(v, orig[..Offset(pages)])
  {
    TiledOffset(pages, |orig|);
    if pages == [] {
    } else {
      var n := |pages| - 1;
      var p := pages[n];
      forall i | 0 <= i < n ensures InPlace(pages[..n], i, |orig|) { assert InPlace(pages, i, |orig|); }
      assert InPlace(pages, n, |orig|);
      AllCountedSum(v, orig, pages[..n]);
      SumOfConcat(v, orig[..p.lo], orig[p.lo..p.hi]);
      assert orig[..p.hi] == orig[..p.lo] + orig[p.lo..p.hi];
    }
  }

  /** A finished run without errors prints the sum of the gains of the rows it processed. */
  lemma FinishedTotal<R>(c: Config, job: Job<R>, m: Meter<R>, orig: seq<R>, steps: seq<Step>)
    requires CanRun(c, Init(c, |orig|), steps) && c.workers >= 1
    requires var s := After(c, Init(c, |orig|), steps); Finished(s) && !s.failed
    ensures var n := After(c, Init(c, |orig|), steps).processed;
            n <= |orig| && LedgerAfter(c, job, m, orig, steps).total == SumOf(Gain(job, m), orig[..n])
  {
    var s := After(c, Init(c, |orig|), steps);
    RunKeeps(c, |orig|, steps);
    RunLedger(c, job, m, orig, steps);
    AllCounted(c, s);
    AllCountedSum(Gain(job, m), orig, s.pages);
  }

  lemma {:induction false} NoGain<R>(v: R -> int, orig: seq<R>, pages: seq<Page>)
    requires forall k | 0 <= k < |orig| :: v(orig[k]) == 0
    ensures CountedSum(v, orig, pages) == 0
  {
    if pages == [] {
    } else {
      var p := pages[|pages| - 1];
      NoGain(v, orig, pages[..|pages| - 1]);
      if p.lo <= p.hi <= |orig| { NoGainRows(v, orig[p.lo..p.hi]); }
    }
  }

  lemma {:induction false} NoGainRows<R>(v: R -> int, rows: seq<R>)
    requires forall k | 0 <= k < |rows| :: v(rows[k]) == 0
    ensures SumOf(v, rows) == 0
  {
    if rows == [] {
    } else {
      NoGainRows(v, rows[..|rows| - 1]);
    }
  }
}
