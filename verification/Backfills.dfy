/** kb backfill-vendored and kb backfill-static: the page bodies as loops, and what a whole run
    leaves, for any interleaving of the producer and the workers. */
module Backfills {
  import opened WorkerPool
  import opened BackfillRows
  import opened BackfillCounters

  // ---- backfill-vendored --------------------------------------------------------------

  datatype VRow = VRow(id: int, name: string, body: string, vend: bool)

  type Detector = (string, string) -> bool

  predicate ToMark(det: Detector, r: VRow) {
    !r.vend && det(r.name, r.body)
  }

  predicate ToUnmark(det: Detector, r: VRow) {
    r.vend && !det(r.name, r.body)
  }

  function IdsWhere(rows: seq<VRow>, p: VRow -> bool): seq<int> {
    if rows == [] then []
    else IdsWhere(rows[..|rows| - 1], p) + if p(rows[|rows| - 1]) then [rows[|rows| - 1].id] else []
  }

  /** The ids found are those of the rows that qualify, and with distinct ids no others. */
  lemma {:induction false} IdsWhereExact(rows: seq<VRow>, p: VRow -> bool)
    ensures forall i | 0 <= i < |rows| && p(rows[i]) :: rows[i].id in IdsWhere(rows, p)
    ensures forall id | id in IdsWhere(rows, p) :: exists i | 0 <= i < |rows| :: rows[i].id == id && p(rows[i])
  {
    if rows == [] {
    } else {
      var n := |rows| - 1;
      IdsWhereExact(rows[..n], p);
      forall id | id in IdsWhere(rows, p) ensures exists i | 0 <= i < |rows| :: rows[i].id == id && p(rows[i]) {
        if id in IdsWhere(rows[..n], p) {
          var i :| 0 <= i < n && rows[..n][i].id == id && p(rows[..n][i]);
          assert rows[i].id == id;
        }
      }
    }
  }

  function OneIf(p: VRow -> bool): VRow -> int {
    r => if p(r) then 1 else 0
  }

  lemma {:induction false} IdsWhereCount(rows: seq<VRow>, p: VRow -> bool)
    ensures |IdsWhere(rows, p)| == SumOf(OneIf(p), rows)
  {
    if rows == [] {
    } else {
      IdsWhereCount(rows[..|rows| - 1], p);
    }
  }

  method ClassifyVendored(rows: seq<VRow>, det: Detector) returns (out: seq<int>)
    ensures out == IdsWhere(rows, r => ToMark(det, r))
  {
    out := [];
    for i := 0 to |rows|
      invariant out == IdsWhere(rows[..i], r => ToMark(det, r))
    {
      assert rows[..i + 1][..i] == rows[..i];
      if !rows[i].vend && det(rows[i].name, rows[i].body) { out := out + [rows[i].id]; }
    }
    assert rows[..|rows|] == rows;
  }

  method ClassifyUnvendored(rows: seq<VRow>, det: Detector) returns (out: seq<int>)
    ensures out == IdsWhere(rows, r => ToUnmark(det, r))
  {
    out := [];
    for i := 0 to |rows|
      invariant out == IdsWhere(rows[..i], r => ToUnmark(det, r))
    {
      assert rows[..i + 1][..i] == rows[..i];
      if rows[i].vend && !det(rows[i].name, rows[i].body) { out := out + [rows[i].id]; }
    }
    assert rows[..|rows|] == rows;
  }

  /** UPDATE modules SET is_vendored = value WHERE id = ANY(ids) AND is_vendored = NOT value */
  function SetFlags(table: seq<VRow>, ids: seq<int>, value: bool): (out: seq<VRow>)
    ensures |out| == |table|
    ensures forall i | 0 <= i < |table| :: out[i] == if table[i].id in ids then table[i].(vend := value) else table[i]
  {
    seq(|table|, i requires 0 <= i < |table| => if table[i].id in ids then table[i].(vend := value) else table[i])
  }

  function MarkOne(det: Detector, snap: VRow, cur: VRow): VRow {
    if ToMark(det, snap) then cur.(vend := true) else cur
  }

  function UnmarkOne(det: Detector, snap: VRow, cur: VRow): VRow {
    if ToUnmark(det, snap) then cur.(vend := false) else cur
  }

  /** The two statements of a page; --dry-run writes nothing. */
  function VendoredJob(det: Detector, reconcile: bool, dryRun: bool): Job<VRow> {
    Job((snap, cur) => if dryRun then cur else MarkOne(det, snap, cur),
        (snap, cur) => if dryRun || !reconcile then cur else UnmarkOne(det, snap, cur))
  }

  /** Both statements of the page body on one of its rows. */
  function PageResult(det: Detector, reconcile: bool, dryRun: bool, snap: VRow, cur: VRow): VRow {
    VendoredJob(det, reconcile, dryRun).second(snap, VendoredJob(det, reconcile, dryRun).first(snap, cur))
  }

  /** What the two statements count: rows changed, or in a dry run rows found. */
  function MarkMeter(det: Detector, dryRun: bool): Meter<VRow> {
    Meter((snap: VRow, cur: VRow) => if ToMark(det, snap) && (dryRun || !cur.vend) then 1 else 0, (snap, cur) => 0)
  }

  function UnmarkMeter(det: Detector, reconcile: bool, dryRun: bool): Meter<VRow> {
    Meter((snap: VRow, cur: VRow) => 0,
          (snap: VRow, cur: VRow) => if reconcile && ToUnmark(det, snap) && (dryRun || cur.vend) then 1 else 0)
  }

  ghost predicate DistinctIds(table: seq<VRow>) {
    forall i, j | 0 <= i < j < |table| :: table[i].id != table[j].id
  }

  /** page holds rows lo.. of the table as they were fetched. */
  ghost predicate ReadFrom(table: seq<VRow>, lo: nat, page: seq<VRow>) {
    lo + |page| <= |table| && forall i | 0 <= i < |page| :: page[i].id == table[lo + i].id
  }

  lemma FlagsHit(table: seq<VRow>, lo: nat, page: seq<VRow>, p: VRow -> bool, k: nat)
    requires DistinctIds(table) && ReadFrom(table, lo, page) && k < |table|
    ensures table[k].id in IdsWhere(page, p) <==> lo <= k < lo + |page| && p(page[k - lo])
  {
    IdsWhereExact(page, p);
    if table[k].id in IdsWhere(page, p) {
      var i :| 0 <= i < |page| && page[i].id == table[k].id && p(page[i]);
      assert table[lo + i].id == table[k].id;
    }
  }

  class ModuleTable {
    var rows: seq<VRow>

    constructor (rows: seq<VRow>)
      ensures this.rows == rows
    {
      this.rows := rows;
    }

    /** The guarded UPDATE over the ids found, skipped when there are none; n is RowsAffected. */
    method Flag(ids: seq<int>, value: bool) returns (n: int)
      modifies this
      ensures |rows| == |old(rows)|
      ensures forall k | 0 <= k < |rows| ::
                rows[k] == if old(rows)[k].id in ids then old(rows)[k].(vend := value) else old(rows)[k]
      ensures n == SumOf(Flips(ids, value), old(rows))
    {
      n := 0;
      if |ids| > 0 {
        n := SumOf(Flips(ids, value), rows);
        rows := SetFlags(rows, ids, value);
      } else {
        NoGainRows(Flips(ids, value), rows);
      }
    }

    /** markVendoredPage for the page read from rows lo..: its rows go through the two
        statements of the job, every other row stays as it is, and the numbers returned are what
        the statements changed, or in a dry run found. */
    method MarkPage(lo: nat, page: seq<VRow>, det: Detector, reconcile: bool, dryRun: bool)
      returns (marked: int, unmarked: int)
      requires DistinctIds(rows) && ReadFrom(rows, lo, page)
      modifies this
      ensures |rows| == |old(rows)|
      ensures forall k | 0 <= k < |rows| ::
                rows[k] == if lo <= k < lo + |page| then PageResult(det, reconcile, dryRun, page[k - lo], old(rows)[k])
                           else old(rows)[k]
      ensures marked == PageCount(MarkMeter(det, dryRun).first, old(rows), lo, page)
      ensures unmarked == PageCount(UnmarkMeter(det, reconcile, dryRun).second, old(rows), lo, page)
    {
      var toTrue := ClassifyVendored(page, det);
      var toFalse := [];
      if reconcile { toFalse := ClassifyUnvendored(page, det); }
      if dryRun {
        DryCounts(rows, lo, page, det, reconcile);
        return |toTrue|, |toFalse|;
      }
      ghost var before := rows;
      Hits(rows, lo, page, det, reconcile, toTrue, toFalse);
      marked := Flag(toTrue, true);
      ghost var mid := rows;
      unmarked := Flag(toFalse, false);
      BothFlagged(before, mid, rows, lo, page, det, reconcile, toTrue, toFalse);
      RealCounts(before, mid, lo, page, det, reconcile, toTrue, toFalse);
    }
  }

  /** The ids found, seen from the table. */
  ghost predicate HitsPage(rows: seq<VRow>, lo: nat, page: seq<VRow>, det: Detector, reconcile: bool,
                           toTrue: seq<int>, toFalse: seq<int>) {
    forall k | 0 <= k < |rows| ::
      && (rows[k].id in toTrue <==> lo <= k < lo + |page| && ToMark(det, page[k - lo]))
      && (rows[k].id in toFalse <==> reconcile && lo <= k < lo + |page| && ToUnmark(det, page[k - lo]))
  }

  lemma Hits(rows: seq<VRow>, lo: nat, page: seq<VRow>, det: Detector, reconcile: bool,
             toTrue: seq<int>, toFalse: seq<int>)
    requires DistinctIds(rows) && ReadFrom(rows, lo, page)
    requires toTrue == IdsWhere(page, r => ToMark(det, r))
    requires toFalse == if reconcile then IdsWhere(page, r => ToUnmark(det, r)) else []
    ensures HitsPage(rows, lo, page, det, reconcile, toTrue, toFalse)
  {
    forall k | 0 <= k < |rows|
      ensures rows[k].id in toTrue <==> lo <= k < lo + |page| && ToMark(det, page[k - lo])
      ensures rows[k].id in toFalse <==> reconcile && lo <= k < lo + |page| && ToUnmark(det, page[k - lo])
    {
      FlagsHit(rows, lo, page, r => ToMark(det, r), k);
      FlagsHit(rows, lo, page, r => ToUnmark(det, r), k);
    }
  }

  /** now is was with the flag set to value for the ids. */
  ghost predicate FlagsSet(was: seq<VRow>, now: seq<VRow>, ids: seq<int>, value: bool) {
    && |now| == |was|
    && forall k | 0 <= k < |was| :: now[k] == if was[k].id in ids then was[k].(vend := value) else was[k]
  }

  lemma BothFlagged(was: seq<VRow>, mid: seq<VRow>, now: seq<VRow>, lo: nat, page: seq<VRow>, det: Detector,
                    reconcile: bool, toTrue: seq<int>, toFalse: seq<int>)
    requires HitsPage(was, lo, page, det, reconcile, toTrue, toFalse)
    requires FlagsSet(was, mid, toTrue, true) && FlagsSet(mid, now, toFalse, false)
    ensures forall k | 0 <= k < |was| ::
              now[k] == if lo <= k < lo + |page| then PageResult(det, reconcile, false, page[k - lo], was[k])
                        else was[k]
  {
    assert forall k | 0 <= k < |was| :: mid[k].id == was[k].id;
  }

  lemma RealCounts(was: seq<VRow>, mid: seq<VRow>, lo: nat, page: seq<VRow>, det: Detector,
                   reconcile: bool, toTrue: seq<int>, toFalse: seq<int>)
    requires lo + |page| <= |was| && HitsPage(was, lo, page, det, reconcile, toTrue, toFalse)
    requires FlagsSet(was, mid, toTrue, true)
    ensures SumOf(Flips(toTrue, true), was) == PageCount(MarkMeter(det, false).first, was, lo, page)
    ensures SumOf(Flips(toFalse, false), mid) == PageCount(UnmarkMeter(det, reconcile, false).second, was, lo, page)
  {
    OnlyThePage(Flips(toTrue, true), MarkMeter(det, false).first, was, lo, page);
    SumOfPointwise(Flips(toFalse, false), Flips(toFalse, false), mid, was);
    OnlyThePage(Flips(toFalse, false), UnmarkMeter(det, reconcile, false).second, was, lo, page);
  }

  function Flips(ids: seq<int>, value: bool): VRow -> int {
    (r: VRow) => if r.id in ids && r.vend != value then 1 else 0
  }

  lemma DryCounts(rows: seq<VRow>, lo: nat, page: seq<VRow>, det: Detector, reconcile: bool)
    requires lo + |page| <= |rows|
    ensures |IdsWhere(page, r => ToMark(det, r))| == PageCount(MarkMeter(det, true).first, rows, lo, page)
    ensures (if reconcile then |IdsWhere(page, r => ToUnmark(det, r))| else 0)
            == PageCount(UnmarkMeter(det, reconcile, true).second, rows, lo, page)
  {
    var mark: VRow -> bool, unmark: VRow -> bool := r => ToMark(det, r), r => ToUnmark(det, r);
    IdsWhereCount(page, mark);
    IdsWhereCount(page, unmark);
    PageCountIsSum(MarkMeter(det, true).first, OneIf(mark), rows, lo, page);
    if reconcile {
      PageCountIsSum(UnmarkMeter(det, true, true).second, OneIf(unmark), rows, lo, page);
    } else {
      PageCountIsSum(UnmarkMeter(det, false, true).second, r => 0, rows, lo, page);
      NoGainRows((r: VRow) => 0, page);
    }
  }

  /** The flag a completed run leaves: the detector's verdict under --reconcile, and otherwise
      never a flag taken back. */
  function TargetFlag(det: Detector, reconcile: bool, dryRun: bool, o: VRow): bool {
    if dryRun then o.vend else if reconcile then det(o.name, o.body) else o.vend || det(o.name, o.body)
  }

  lemma VendoredDone(det: Detector, reconcile: bool, dryRun: bool, o: VRow)
    ensures Done(VendoredJob(det, reconcile, dryRun), o) == o.(vend := TargetFlag(det, reconcile, dryRun, o))
    ensures var half := VendoredJob(det, reconcile, dryRun).first(o, o);
            half == o || half == o.(vend := TargetFlag(det, reconcile, dryRun, o))
  {
  }

  /** A complete run without errors or limit leaves every flag at its target, whatever the
      interleaving. */
  lemma VendoredRun(c: Config, det: Detector, reconcile: bool, dryRun: bool, orig: seq<VRow>, steps: seq<Step>, k: nat)
    requires CanRun(c, Init(c, |orig|), steps) && c.workers >= 1 && c.limit == 0 && k < |orig|
    requires var s := After(c, Init(c, |orig|), steps); Finished(s) && !s.failed
    ensures TableAfter(c, VendoredJob(det, reconcile, dryRun), orig, steps).rows[k]
            == orig[k].(vend := TargetFlag(det, reconcile, dryRun, orig[k]))
  {
    LimitBound(c, |orig|, steps);
    FinishedRows(c, VendoredJob(det, reconcile, dryRun), orig, steps, k);
    VendoredDone(det, reconcile, dryRun, orig[k]);
  }

  /** Killed anywhere, with errors or a limit: each flag is the old one or the target, so a
      complete run afterwards ends where an uninterrupted one would have. */
  lemma VendoredKillAndRerun(c: Config, c': Config, det: Detector, reconcile: bool, dryRun: bool,
                             orig: seq<VRow>, killed: seq<Step>, again: seq<Step>, k: nat)
    requires CanRun(c, Init(c, |orig|), killed) && k < |orig| && c'.workers >= 1 && c'.limit == 0
    requires CanRun(c', Init(c', |orig|), again)
    requires var s := After(c', Init(c', |orig|), again); Finished(s) && !s.failed
    ensures var job := VendoredJob(det, reconcile, dryRun);
            TableAfter(c', job, TableAfter(c, job, orig, killed).rows, again).rows[k]
            == orig[k].(vend := TargetFlag(det, reconcile, dryRun, orig[k]))
  {
    var job := VendoredJob(det, reconcile, dryRun);
    var mid := TableAfter(c, job, orig, killed).rows;
    AnyStop(c, job, orig, killed, k);
    VendoredDone(det, reconcile, dryRun, orig[k]);
    VendoredRun(c', det, reconcile, dryRun, mid, again, k);
  }

  // ---- the printed totals -----------------------------------------------------------------

  function ToMarkIn(det: Detector): VRow -> int {
    o => if ToMark(det, o) then 1 else 0
  }

  function ToUnmarkIn(det: Detector, reconcile: bool): VRow -> int {
    o => if reconcile && ToUnmark(det, o) then 1 else 0
  }

  function Flagged(): VRow -> int {
    (o: VRow) => if o.vend then 1 else 0
  }

  /** A finished run without errors prints how many of the rows it processed were to be marked
      and unmarked when it started, in every interleaving; a dry run prints the same numbers. */
  lemma VendoredTotals(c: Config, det: Detector, reconcile: bool, dryRun: bool, orig: seq<VRow>, steps: seq<Step>)
    requires CanRun(c, Init(c, |orig|), steps) && c.workers >= 1
    requires var s := After(c, Init(c, |orig|), steps); Finished(s) && !s.failed
    ensures var n, job := After(c, Init(c, |orig|), steps).processed, VendoredJob(det, reconcile, dryRun);
            && n <= |orig|
            && LedgerAfter(c, job, MarkMeter(det, dryRun), orig, steps).total == SumOf(ToMarkIn(det), orig[..n])
            && LedgerAfter(c, job, UnmarkMeter(det, reconcile, dryRun), orig, steps).total
               == SumOf(ToUnmarkIn(det, reconcile), orig[..n])
  {
    var n, job := After(c, Init(c, |orig|), steps).processed, VendoredJob(det, reconcile, dryRun);
    FinishedTotal(c, job, MarkMeter(det, dryRun), orig, steps);
    FinishedTotal(c, job, UnmarkMeter(det, reconcile, dryRun), orig, steps);
    MarkGains(det, reconcile, dryRun, orig[..n]);
    UnmarkGains(det, reconcile, dryRun, orig[..n]);
  }

  lemma MarkGains(det: Detector, reconcile: bool, dryRun: bool, rows: seq<VRow>)
    ensures SumOf(Gain(VendoredJob(det, reconcile, dryRun), MarkMeter(det, dryRun)), rows)
            == SumOf(ToMarkIn(det), rows)
  {
    SumOfPointwise(Gain(VendoredJob(det, reconcile, dryRun), MarkMeter(det, dryRun)), ToMarkIn(det), rows, rows);
  }

  lemma UnmarkGains(det: Detector, reconcile: bool, dryRun: bool, rows: seq<VRow>)
    ensures SumOf(Gain(VendoredJob(det, reconcile, dryRun), UnmarkMeter(det, reconcile, dryRun)), rows)
            == SumOf(ToUnmarkIn(det, reconcile), rows)
  {
    SumOfPointwise(Gain(VendoredJob(det, reconcile, dryRun), UnmarkMeter(det, reconcile, dryRun)),
                   ToUnmarkIn(det, reconcile), rows, rows);
  }

  lemma {:induction false} FlagBalance(det: Detector, reconcile: bool, was: seq<VRow>, now: seq<VRow>)
    requires |was| == |now|
    requires forall k | 0 <= k < |was| :: now[k] == was[k].(vend := TargetFlag(det, reconcile, false, was[k]))
    ensures SumOf(Flagged(), now)
            == SumOf(Flagged(), was) + SumOf(ToMarkIn(det), was) - SumOf(ToUnmarkIn(det, reconcile), was)
  {
    if was == [] {
    } else {
      FlagBalance(det, reconcile, was[..|was| - 1], now[..|now| - 1]);
    }
  }

  /** The totals of a complete run add up: flagged rows before, plus marked, minus unmarked, are
      the flagged rows after. */
  lemma TotalsBalance(c: Config, det: Detector, reconcile: bool, orig: seq<VRow>, steps: seq<Step>)
    requires CanRun(c, Init(c, |orig|), steps) && c.workers >= 1 && c.limit == 0
    requires var s := After(c, Init(c, |orig|), steps); Finished(s) && !s.failed
    ensures var job := VendoredJob(det, reconcile, false);
            SumOf(Flagged(), TableAfter(c, job, orig, steps).rows)
            == SumOf(Flagged(), orig) + LedgerAfter(c, job, MarkMeter(det, false), orig, steps).total
               - LedgerAfter(c, job, UnmarkMeter(det, reconcile, false), orig, steps).total
  {
    var job := VendoredJob(det, reconcile, false);
    LimitBound(c, |orig|, steps);
    VendoredTotals(c, det, reconcile, false, orig, steps);
    assert orig[..|orig|] == orig;
    forall k | 0 <= k < |orig|
      ensures TableAfter(c, job, orig, steps).rows[k] == orig[k].(vend := TargetFlag(det, reconcile, false, orig[k]))
    {
      VendoredRun(c, det, reconcile, false, orig, steps, k);
    }
    FlagBalance(det, reconcile, orig, TableAfter(c, job, orig, steps).rows);
  }
}
