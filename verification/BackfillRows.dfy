/** What a backfill run does to the rows, for every interleaving WorkerPool allows: each page is
    read once, its two statements apply to it once and in order, whatever the other pages do. */
module BackfillRows {
  import opened Basics
  import opened WorkerPool

  /** A statement maps the row as fetched and the row as stored to the row it stores. */
  datatype Job<!R> = Job(first: (R, R) -> R, second: (R, R) -> R)

  /** snaps[i] is what the producer read for page i. */
  datatype Table<R> = Table(rows: seq<R>, snaps: seq<seq<R>>)

  function Update<R>(rows: seq<R>, lo: nat, snap: seq<R>, f: (R, R) -> R): (out: seq<R>)
    ensures |out| == |rows|
    ensures forall k | 0 <= k < |rows| :: out[k] == if lo <= k < lo + |snap| then f(snap[k - lo], rows[k]) else rows[k]
  {
    seq(|rows|, k requires 0 <= k < |rows| => if lo <= k < lo + |snap| then f(snap[k - lo], rows[k]) else rows[k])
  }

  function Fetched<R>(s: Pool, t: Table<R>): Table<R>
    requires s.producer.Loaded? && s.total == |t.rows|
  {
    var lo := Offset(s.pages);
    if lo >= s.total || s.producer.take == 0 then t
    else t.(snaps := t.snaps + [t.rows[lo..Min(lo + s.producer.take, s.total)]])
  }

  /** The rows' side of one step of the pool. */
  function RowStep<R>(c: Config, job: Job<R>, s: Pool, t: Table<R>, step: Step): Table<R>
    requires Enabled(c, s, step) && |t.snaps| == |s.pages| && |t.rows| == s.total
  {
    match step
    case Fetch => Fetched(s, t)
    case First(i) => t.(rows := Update(t.rows, s.pages[i].lo, t.snaps[i], job.first))
    case Second(i) => t.(rows := Update(t.rows, s.pages[i].lo, t.snaps[i], job.second))
    case _ => t
  }

  function Done<R>(job: Job<R>, o: R): R {
    job.second(o, job.first(o, o))
  }

  /** What a row of a page in this place holds, o being its value before the run. */
  predicate RowAt<R(==)>(job: Job<R>, o: R, r: R, at: Place) {
    match at
    case Half => r == job.first(o, o)
    case Marked => r == Done(job, o)
    case Counted => r == Done(job, o)
    case Broken => r == o || r == job.first(o, o) || r == Done(job, o)
    case _ => r == o
  }

  /** Page i was read as it was before the run, and its rows hold what its place says. */
  predicate PageOk<R(==)>(job: Job<R>, orig: seq<R>, pages: seq<Page>, t: Table<R>, i: nat)
    requires i < |pages| == |t.snaps| && |orig| == |t.rows| && Tiled(pages, |orig|)
  {
    assert InPlace(pages, i, |orig|);
    && t.snaps[i] == orig[pages[i].lo..pages[i].hi]
    && forall k | pages[i].lo <= k < pages[i].hi :: RowAt(job, orig[k], t.rows[k], pages[i].at)
  }

  predicate RowsOk<R(==)>(job: Job<R>, orig: seq<R>, pages: seq<Page>, t: Table<R>) {
    && |pages| == |t.snaps| && |orig| == |t.rows| && Tiled(pages, |orig|)
    && (forall i | 0 <= i < |pages| :: PageOk(job, orig, pages, t, i))
    && (forall k | Offset(pages) <= k < |orig| :: t.rows[k] == orig[k])
  }

  lemma {:induction false} TiledApart(pages: seq<Page>, total: nat, i: nat, j: nat)
    requires Tiled(pages, total) && i < j < |pages|
    ensures pages[i].hi <= pages[j].lo
    decreases j
  {
    assert InPlace(pages, j, total) && InPlace(pages, j - 1, total);
    if i == j - 1 {
    } else {
      TiledApart(pages, total, i, j - 1);
    }
  }

  lemma TiledBelow(pages: seq<Page>, total: nat, i: nat)
    requires Tiled(pages, total) && i < |pages|
    ensures pages[i].hi <= Offset(pages)
  {
    assert InPlace(pages, i, total);
    if i < |pages| - 1 {
      TiledApart(pages, total, i, |pages| - 1);
      assert InPlace(pages, |pages| - 1, total);
    }
  }

  /** A step that only moves page i to a place its rows already satisfy. */
  lemma MoveRows<R>(job: Job<R>, orig: seq<R>, s: Pool, s': Pool, t: Table<R>, i: nat, at: Place)
    requires s.total == |orig| && RowsOk(job, orig, s.pages, t) && Moved(s, s', i, at)
    requires forall o, r | RowAt(job, o, r, s.pages[i].at) :: RowAt(job, o, r, at)
    ensures RowsOk(job, orig, s'.pages, t)
  {
    MoveFacts(s.pages, i, at, s.total);
    forall j | 0 <= j < |s'.pages| ensures PageOk(job, orig, s'.pages, t, j) {
      assert PageOk(job, orig, s.pages, t, j);
    }
  }

  /** A statement of page i changes that page's rows only. */
  lemma StatementRows<R>(job: Job<R>, orig: seq<R>, s: Pool, s': Pool, t: Table<R>, i: nat, at: Place, f: (R, R) -> R)
    requires s.total == |orig| && RowsOk(job, orig, s.pages, t) && Moved(s, s', i, at)
    requires forall o, r | RowAt(job, o, r, s.pages[i].at) :: RowAt(job, o, f(o, r), at)
    ensures RowsOk(job, orig, s'.pages, t.(rows := Update(t.rows, s.pages[i].lo, t.snaps[i], f)))
  {
    var t' := t.(rows := Update(t.rows, s.pages[i].lo, t.snaps[i], f));
    MoveFacts(s.pages, i, at, s.total);
    assert PageOk(job, orig, s.pages, t, i) && InPlace(s.pages, i, s.total);
    TiledBelow(s.pages, s.total, i);
    forall j | 0 <= j < |s'.pages| ensures PageOk(job, orig, s'.pages, t', j) {
      assert PageOk(job, orig, s.pages, t, j) && InPlace(s.pages, j, s.total);
      if j < i { TiledApart(s.pages, s.total, j, i); }
      if i < j { TiledApart(s.pages, s.total, i, j); }
    }
    assert |t.snaps[i]| == s.pages[i].hi - s.pages[i].lo;
    forall k | Offset(s'.pages) <= k < s'.total ensures t'.rows[k] == orig[k] {
      assert t.rows[k] == orig[k];
    }
  }

  lemma FetchRows<R>(job: Job<R>, orig: seq<R>, s: Pool, t: Table<R>)
    requires s.total == |orig| && RowsOk(job, orig, s.pages, t) && s.producer.Loaded? && s.producer.take <= PAGE
    ensures RowsOk(job, orig, DoFetch(s).pages, Fetched(s, t))
  {
    var s', t' := DoFetch(s), Fetched(s, t);
    if Offset(s.pages) < s.total && s.producer.take > 0 {
      var p := Page(Offset(s.pages), Min(Offset(s.pages) + s.producer.take, s.total), Place.Fetched);
      assert s'.pages == s.pages + [p];
      TiledAppend(s.pages, s.total, p);
      forall j | 0 <= j < |s'.pages| ensures PageOk(job, orig, s'.pages, t', j) {
        if j < |s.pages| { assert PageOk(job, orig, s.pages, t, j); }
      }
      forall k | Offset(s'.pages) <= k < s'.total ensures t'.rows[k] == orig[k] {
        assert t.rows[k] == orig[k];
      }
    }
  }

  lemma StepRows<R>(c: Config, job: Job<R>, orig: seq<R>, s: Pool, t: Table<R>, step: Step)
    requires Inv(c, s) && Enabled(c, s, step) && s.total == |orig| && RowsOk(job, orig, s.pages, t)
    ensures RowsOk(job, orig, Apply(c, s, step).pages, RowStep(c, job, s, t, step))
  {
    var s' := Apply(c, s, step);
    match step
    case Load =>
    case FetchFails =>
    case GiveUp =>
    case Fetch => FetchRows(job, orig, s, t);
    case Send => MoveRows(job, orig, s, s', t, |s.pages| - 1, Queued);
    case Take(i) => MoveRows(job, orig, s, s', t, i, Taken);
    case First(i) => StatementRows(job, orig, s, s', t, i, Half, job.first);
    case Second(i) => StatementRows(job, orig, s, s', t, i, Marked, job.second);
    case Count(i) => MoveRows(job, orig, s, s', t, i, Counted);
    case Break(i) => MoveRows(job, orig, s, s', t, i, Broken);
  }

  /** The rows after a run. */
  function TableAfter<R>(c: Config, job: Job<R>, orig: seq<R>, steps: seq<Step>): (t: Table<R>)
    requires CanRun(c, Init(c, |orig|), steps)
    ensures |t.snaps| == |After(c, Init(c, |orig|), steps).pages| && |t.rows| == |orig|
    ensures After(c, Init(c, |orig|), steps).total == |orig|
  {
    if steps == [] then Table(orig, [])
    else
      var n := |steps| - 1;
      RowStep(c, job, After(c, Init(c, |orig|), steps[..n]), TableAfter(c, job, orig, steps[..n]), steps[n])
  }

  lemma {:induction false} RunRows<R>(c: Config, job: Job<R>, orig: seq<R>, steps: seq<Step>)
    requires CanRun(c, Init(c, |orig|), steps)
    ensures RowsOk(job, orig, After(c, Init(c, |orig|), steps).pages, TableAfter(c, job, orig, steps))
  {
    if steps == [] {
    } else {
      var n := |steps| - 1;
      RunRows(c, job, orig, steps[..n]);
      RunKeeps(c, |orig|, steps[..n]);
      StepRows(c, job, orig, After(c, Init(c, |orig|), steps[..n]), TableAfter(c, job, orig, steps[..n]), steps[n]);
    }
  }

  /** The page that holds row k. */
  lemma {:induction false} PageOf(pages: seq<Page>, total: nat, k: nat) returns (i: nat)
    requires Tiled(pages, total) && k < Offset(pages)
    ensures i < |pages| && pages[i].lo <= k < pages[i].hi
  {
    var n := |pages| - 1;
    assert InPlace(pages, n, total);
    if k < pages[n].lo {
      forall j | 0 <= j < n ensures InPlace(pages[..n], j, total) { assert InPlace(pages, j, total); }
      i := PageOf(pages[..n], total, k);
    } else {
      i := n;
    }
  }

  /** Wherever a run stops, killed or not, each row is as it was, or has the first statement
      applied, or both; and rows keep their places. */
  lemma AnyStop<R>(c: Config, job: Job<R>, orig: seq<R>, steps: seq<Step>, k: nat)
    requires CanRun(c, Init(c, |orig|), steps) && k < |orig|
    ensures var r := TableAfter(c, job, orig, steps).rows[k];
            r == orig[k] || r == job.first(orig[k], orig[k]) || r == Done(job, orig[k])
  {
    var s, t := After(c, Init(c, |orig|), steps), TableAfter(c, job, orig, steps);
    RunRows(c, job, orig, steps);
    if k < Offset(s.pages) {
      var i := PageOf(s.pages, s.total, k);
      assert PageOk(job, orig, s.pages, t, i);
      assert RowAt(job, orig[k], t.rows[k], s.pages[i].at);
    } else {
      assert t.rows[k] == orig[k];
    }
  }

  /** A finished run without errors applied both statements exactly once to the rows it
      processed, the first ones in id order, and left the others alone. */
  lemma FinishedRows<R>(c: Config, job: Job<R>, orig: seq<R>, steps: seq<Step>, k: nat)
    requires CanRun(c, Init(c, |orig|), steps) && c.workers >= 1 && k < |orig|
    requires var s := After(c, Init(c, |orig|), steps); Finished(s) && !s.failed
    ensures TableAfter(c, job, orig, steps).rows[k]
            == if k < After(c, Init(c, |orig|), steps).processed then Done(job, orig[k]) else orig[k]
  {
    var s, t := After(c, Init(c, |orig|), steps), TableAfter(c, job, orig, steps);
    RunRows(c, job, orig, steps);
    RunKeeps(c, |orig|, steps);
    AllCounted(c, s);
    if k < Offset(s.pages) {
      var i := PageOf(s.pages, s.total, k);
      assert PageOk(job, orig, s.pages, t, i);
      assert RowAt(job, orig[k], t.rows[k], s.pages[i].at);
    } else {
      assert t.rows[k] == orig[k];
    }
  }

  /** A row that counts how often it is processed: without a limit, every row ends at one. */
  lemma ExactlyOnce(c: Config, total: nat, steps: seq<Step>, k: nat)
    requires CanRun(c, Init(c, total), steps) && c.workers >= 1 && c.limit == 0 && k < total
    requires var s := After(c, Init(c, total), steps); Finished(s) && !s.failed
    ensures var job: Job<nat> := Job((seen, n) => n + 1, (seen, n) => n);
            TableAfter(c, job, seq(total, i => 0), steps).rows[k] == 1
  {
    var job: Job<nat> := Job((seen, n) => n + 1, (seen, n) => n);
    LimitBound(c, total, steps);
    FinishedRows(c, job, seq(total, i => 0), steps, k);
  }
}
