/** kb backfill-static: extracted imports become dependencies, empty or noisy symbol lists are
    replaced by clean ones. One transaction per page, under WorkerPool's producer and workers. */
module StaticBackfill {
  import opened Basics
  import opened WorkerPool
  import opened BackfillRows
  import opened BackfillCounters

  datatype SRow = SRow(id: int, name: string, lang: string, body: string, symbols: Option<string>, deps: set<string>)

  datatype Found = Found(imports: seq<string>, symbols: string)

  /** The extractor is deterministic; noisy is its test for junk symbol lists. */
  datatype Tools = Tools(extract: (string, string, string) -> Found, noisy: string -> bool)

  function Extract(t: Tools, r: SRow): Found {
    t.extract(r.body, r.name, r.lang)
  }

  predicate ShouldFix(t: Tools, symbols: Option<string>) {
    symbols.None? || symbols.value == "" || t.noisy(symbols.value)
  }

  predicate Usable(t: Tools, symbols: string) {
    symbols != "" && !t.noisy(symbols)
  }

  function Wanted(imports: seq<string>): set<string> {
    set s | s in imports && s != ""
  }

  /** What the page transaction makes of a row: snap as it was fetched, cur as it is stored. */
  function WriteRow(t: Tools, snap: SRow, cur: SRow): SRow {
    var f := Extract(t, snap);
    cur.(deps := cur.deps + Wanted(f.imports),
         symbols := if ShouldFix(t, snap.symbols) && Usable(t, f.symbols) then Some(f.symbols) else cur.symbols)
  }

  function StaticJob(t: Tools, dryRun: bool): Job<SRow> {
    Job((snap, cur) => if dryRun then cur else WriteRow(t, snap, cur), (snap, cur) => cur)
  }

  // ---- counters -----------------------------------------------------------------------

  function DepsAdded(t: Tools, snap: SRow, cur: SRow): int {
    |WriteRow(t, snap, cur).deps| - |cur.deps|
  }

  function SymsFixed(t: Tools, snap: SRow): nat {
    if ShouldFix(t, snap.symbols) && Usable(t, Extract(t, snap).symbols) then 1 else 0
  }

  /** --dry-run counts every import, duplicates and known ones included, and noisy results. */
  function DryDeps(t: Tools, snap: SRow): nat {
    |Extract(t, snap).imports|
  }

  function DrySyms(t: Tools, snap: SRow): nat {
    if ShouldFix(t, snap.symbols) && Extract(t, snap).symbols != "" then 1 else 0
  }

  datatype Counts = Counts(deps: int, syms: int)

  function Real(t: Tools, page: seq<SRow>): Counts {
    Counts(SumOf((o: SRow) => DepsAdded(t, o, o), page), SumOf((o: SRow) => SymsFixed(t, o), page))
  }

  function Dry(t: Tools, page: seq<SRow>): Counts {
    Counts(SumOf((o: SRow) => DryDeps(t, o), page), SumOf((o: SRow) => DrySyms(t, o), page))
  }

  lemma {:induction false} WantedSize(imports: seq<string>)
    ensures |Wanted(imports)| <= |imports|
  {
    if imports == [] {
    } else {
      var n := |imports| - 1;
      WantedSize(imports[..n]);
      assert Wanted(imports) <= Wanted(imports[..n]) + {imports[n]};
      SubsetSize(Wanted(imports), Wanted(imports[..n]) + {imports[n]});
    }
  }

  lemma DepsAddedRange(t: Tools, snap: SRow, cur: SRow)
    ensures 0 <= DepsAdded(t, snap, cur) <= DryDeps(t, snap)
  {
    var w := Wanted(Extract(t, snap).imports);
    WantedSize(Extract(t, snap).imports);
    SubsetSize(cur.deps, cur.deps + w);
    assert cur.deps + w == cur.deps + (w - cur.deps);
    SubsetSize(w - cur.deps, w);
  }

  lemma DryBoundsReal(t: Tools, rows: seq<SRow>)
    ensures 0 <= Real(t, rows).deps <= Dry(t, rows).deps && 0 <= Real(t, rows).syms <= Dry(t, rows).syms
  {
    forall k | 0 <= k < |rows| ensures 0 <= DepsAdded(t, rows[k], rows[k]) <= DryDeps(t, rows[k]) {
      DepsAddedRange(t, rows[k], rows[k]);
    }
    SumOfBounds((o: SRow) => DepsAdded(t, o, o), (o: SRow) => DryDeps(t, o), rows);
    SumOfBounds((o: SRow) => SymsFixed(t, o), (o: SRow) => DrySyms(t, o), rows);
  }

  // ---- what a row holds afterwards ------------------------------------------------------

  /** The row had no list, an empty or a noisy one, and the extractor found a better one. */
  predicate Fixable(t: Tools, o: SRow) {
    var found := t.extract(o.body, o.name, o.lang).symbols;
    (o.symbols.None? || o.symbols.value == "" || t.noisy(o.symbols.value)) && found != "" && !t.noisy(found)
  }

  /** r is cur with the imports found for snap, and with the list found if snap is fixable. */
  predicate StoredAs(t: Tools, snap: SRow, cur: SRow, r: SRow) {
    var found := t.extract(snap.body, snap.name, snap.lang);
    && r == cur.(deps := r.deps, symbols := r.symbols)
    && r.deps == cur.deps + (set d | d in found.imports && d != "")
    && r.symbols == if Fixable(t, snap) then Some(found.symbols) else cur.symbols
  }

  lemma WriteRowStores(t: Tools, snap: SRow, cur: SRow)
    ensures StoredAs(t, snap, cur, WriteRow(t, snap, cur))
  {
  }

  /** New dependencies and fixed lists of one row; what a dry run counts instead. */
  function NewDeps(t: Tools): SRow -> int {
    (o: SRow) => |o.deps + (set d | d in t.extract(o.body, o.name, o.lang).imports && d != "")| - |o.deps|
  }

  function FixedLists(t: Tools): SRow -> int {
    (o: SRow) => if Fixable(t, o) then 1 else 0
  }

  function AnnouncedDeps(t: Tools): SRow -> int {
    (o: SRow) => |t.extract(o.body, o.name, o.lang).imports|
  }

  /** A dry run takes a noisy find for a fix. */
  function AnnouncedFixes(t: Tools): SRow -> int {
    (o: SRow) => if (o.symbols.None? || o.symbols.value == "" || t.noisy(o.symbols.value))
                    && t.extract(o.body, o.name, o.lang).symbols != "" then 1 else 0
  }

  lemma CountsMean(t: Tools, rows: seq<SRow>)
    ensures Real(t, rows) == Counts(SumOf(NewDeps(t), rows), SumOf(FixedLists(t), rows))
    ensures Dry(t, rows) == Counts(SumOf(AnnouncedDeps(t), rows), SumOf(AnnouncedFixes(t), rows))
  {
    RealCountsMean(t, rows);
    SumOfPointwise((o: SRow) => DryDeps(t, o), AnnouncedDeps(t), rows, rows);
    SumOfPointwise((o: SRow) => DrySyms(t, o), AnnouncedFixes(t), rows, rows);
  }

  lemma RealCountsMean(t: Tools, rows: seq<SRow>)
    ensures Real(t, rows) == Counts(SumOf(NewDeps(t), rows), SumOf(FixedLists(t), rows))
  {
    forall k | 0 <= k < |rows| ensures DepsAdded(t, rows[k], rows[k]) == NewDeps(t)(rows[k]) {
      WriteRowStores(t, rows[k], rows[k]);
    }
    SumOfPointwise((o: SRow) => DepsAdded(t, o, o), NewDeps(t), rows, rows);
    SumOfPointwise((o: SRow) => SymsFixed(t, o), FixedLists(t), rows, rows);
  }

  // ---- the page transaction -------------------------------------------------------------

  lemma WantedStep(deps: set<string>, imports: seq<string>, i: nat)
    requires i < |imports|
    ensures deps + Wanted(imports[..i + 1])
            == if imports[i] == "" then deps + Wanted(imports[..i]) else (deps + Wanted(imports[..i])) + {imports[i]}
  {
    assert Wanted(imports[..i + 1]) == Wanted(imports[..i]) + (if imports[i] == "" then {} else {imports[i]});
  }

  /** Some statement numbered a .. b - 1 fails. */
  ghost predicate SomeFails(fails: nat -> bool, a: nat, b: nat) {
    exists n: nat :: a <= n < b && fails(n)
  }

  lemma OneMoreFails(fails: nat -> bool, a: nat, b: nat)
    requires a <= b
    ensures SomeFails(fails, a, b + 1) <==> SomeFails(fails, a, b) || fails(b)
  {
  }

  function NonEmpty(imports: seq<string>): nat {
    if imports == [] then 0 else NonEmpty(imports[..|imports| - 1]) + if imports[|imports| - 1] == "" then 0 else 1
  }

  /** The statements a row sends. */
  function Statements(t: Tools, snap: SRow): nat {
    NonEmpty(Extract(t, snap).imports) + SymsFixed(t, snap)
  }

  function PageStatements(t: Tools, page: seq<SRow>): nat {
    if page == [] then 0 else PageStatements(t, page[..|page| - 1]) + Statements(t, page[|page| - 1])
  }

  /** INSERT ... ON CONFLICT DO NOTHING for each import, counting the rows it added. A failing
      statement is passed over; it aborts the transaction, in which no later one succeeds. */
  method InsertDeps(deps: set<string>, imports: seq<string>, fails: nat -> bool, first: nat, aborted: bool)
    returns (out: set<string>, added: nat, next: nat, broken: bool)
    ensures next == first + NonEmpty(imports)
    ensures broken <==> aborted || SomeFails(fails, first, next)
    ensures !broken ==> out == deps + Wanted(imports) && added == |out| - |deps|
  {
    out, added, next, broken := deps, 0, first, aborted;
    for i := 0 to |imports|
      invariant next == first + NonEmpty(imports[..i])
      invariant broken <==> aborted || SomeFails(fails, first, next)
      invariant !broken ==> out == deps + Wanted(imports[..i]) && added == |out| - |deps|
    {
      WantedStep(deps, imports, i);
      assert imports[..i + 1][..i] == imports[..i];
      if imports[i] == "" { continue; }
      OneMoreFails(fails, first, next);
      broken := broken || fails(next);
      next := next + 1;
      if broken { continue; }
      if imports[i] !in out {
        out := out + {imports[i]};
        added := added + 1;
      }
    }
    assert imports[..|imports|] == imports;
  }

  /** One row of a page: its dependencies, then its symbol list. */
  method ProcessRow(t: Tools, snap: SRow, cur: SRow, fails: nat -> bool, first: nat, aborted: bool)
    returns (row: SRow, added: nat, fixed: nat, next: nat, broken: bool)
    ensures next == first + Statements(t, snap)
    ensures broken <==> aborted || SomeFails(fails, first, next)
    ensures !broken ==> row == WriteRow(t, snap, cur) && added == DepsAdded(t, snap, cur) && fixed == SymsFixed(t, snap)
  {
    var f := t.extract(snap.body, snap.name, snap.lang);
    var deps;
    deps, added, next, broken := InsertDeps(cur.deps, f.imports, fails, first, aborted);
    row, fixed := cur.(deps := deps), 0;
    if ShouldFix(t, snap.symbols) && f.symbols != "" && !t.noisy(f.symbols) {
      OneMoreFails(fails, first, next);
      broken := broken || fails(next);
      next := next + 1;
      if !broken { row, fixed := row.(symbols := Some(f.symbols)), 1; }
    }
  }

  /** The first i rows of the page, read from rows lo.., are written and nothing else is. */
  ghost predicate WrittenUpTo(t: Tools, was: seq<SRow>, now: seq<SRow>, lo: nat, page: seq<SRow>, i: nat)
    requires i <= |page| && lo + |page| <= |was|
  {
    && |now| == |was|
    && forall k | 0 <= k < |was| :: now[k] == if lo <= k < lo + i then WriteRow(t, page[k - lo], was[k]) else was[k]
  }

  lemma WriteOn(t: Tools, was: seq<SRow>, now: seq<SRow>, lo: nat, page: seq<SRow>, i: nat)
    requires i < |page| && lo + |page| <= |was| && WrittenUpTo(t, was, now, lo, page, i)
    ensures now[lo + i] == was[lo + i]
    ensures WrittenUpTo(t, was, now[lo + i := WriteRow(t, page[i], was[lo + i])], lo, page, i + 1)
  {
  }

  lemma RealStep(t: Tools, page: seq<SRow>, i: nat)
    requires i < |page|
    ensures var c := Real(t, page[..i]);
            Real(t, page[..i + 1]) == Counts(c.deps + DepsAdded(t, page[i], page[i]), c.syms + SymsFixed(t, page[i]))
  {
    assert page[..i + 1][..i] == page[..i];
  }

  lemma FailsApart(fails: nat -> bool, a: nat, b: nat, c: nat)
    requires a <= b <= c
    ensures SomeFails(fails, a, c) <==> SomeFails(fails, a, b) || SomeFails(fails, b, c)
  {
  }

  /** The open transaction after the first i rows of the page, the statements sent and whether
      one of them has aborted it. */
  ghost predicate TxUpTo(t: Tools, fails: nat -> bool, was: seq<SRow>, tx: seq<SRow>, lo: nat, page: seq<SRow>, i: nat,
                         sent: nat, broken: bool, counts: Counts)
    requires i <= |page| && lo + |page| <= |was|
  {
    && sent == PageStatements(t, page[..i]) && |tx| == |was| && (broken <==> SomeFails(fails, 0, sent))
    && (!broken ==> WrittenUpTo(t, was, tx, lo, page, i) && counts == Real(t, page[..i]))
  }

  lemma StatementsStep(t: Tools, page: seq<SRow>, i: nat)
    requires i < |page|
    ensures PageStatements(t, page[..i + 1]) == PageStatements(t, page[..i]) + Statements(t, page[i])
  {
    assert page[..i + 1][..i] == page[..i];
  }

  lemma TxStep(t: Tools, fails: nat -> bool, was: seq<SRow>, tx: seq<SRow>, lo: nat, page: seq<SRow>, i: nat,
               sent: nat, broken: bool, counts: Counts, row: SRow, broken': bool, n: int, m: int)
    requires i < |page| && lo + |page| <= |was| && TxUpTo(t, fails, was, tx, lo, page, i, sent, broken, counts)
    requires var next := sent + Statements(t, page[i]);
             && (broken' <==> broken || SomeFails(fails, sent, next))
             && (!broken' ==> row == WriteRow(t, page[i], tx[lo + i])
                              && n == DepsAdded(t, page[i], tx[lo + i]) && m == SymsFixed(t, page[i]))
    requires page[i] == was[lo + i]
    ensures TxUpTo(t, fails, was, tx[lo + i := row], lo, page, i + 1, sent + Statements(t, page[i]), broken',
                   Counts(counts.deps + n, counts.syms + m))
  {
    StatementsStep(t, page, i);
    FailsApart(fails, 0, sent, sent + Statements(t, page[i]));
    if !broken' {
      WriteOn(t, was, tx, lo, page, i);
      RealStep(t, page, i);
    }
  }

  lemma PageStored(t: Tools, was: seq<SRow>, now: seq<SRow>, lo: nat, page: seq<SRow>)
    requires lo + |page| <= |was|
    ensures WrittenUpTo(t, was, now, lo, page, |page|) ==>
              forall k | lo <= k < lo + |page| :: StoredAs(t, page[k - lo], was[k], now[k])
  {
    if WrittenUpTo(t, was, now, lo, page, |page|) {
      forall k | lo <= k < lo + |page| ensures StoredAs(t, page[k - lo], was[k], now[k]) {
        WriteRowStores(t, page[k - lo], was[k]);
      }
    }
  }

  class StaticTable {
    var rows: seq<SRow>

    constructor (rows: seq<SRow>)
      ensures this.rows == rows
    {
      this.rows := rows;
    }

    /** processPage for the page read from rows lo..: one transaction. It commits exactly when no
        statement and not the commit fails; then each row of the page is written once, the others
        stay and the counters are exact. Otherwise nothing is stored or counted. */
    method ProcessPage(lo: nat, page: seq<SRow>, t: Tools, fails: nat -> bool, commitFails: bool)
      returns (ok: bool, added: int, fixed: int)
      requires lo + |page| <= |rows| && page == rows[lo..lo + |page|]
      modifies this
      ensures ok <==> !commitFails && !SomeFails(fails, 0, PageStatements(t, page))
      ensures ok ==> WrittenUpTo(t, old(rows), rows, lo, page, |page|) && Counts(added, fixed) == Real(t, page)
      ensures ok ==> forall k | lo <= k < lo + |page| :: StoredAs(t, page[k - lo], old(rows)[k], rows[k])
      ensures ok ==> added == SumOf(NewDeps(t), page) && fixed == SumOf(FixedLists(t), page)
      ensures !ok ==> rows == old(rows) && added == fixed == 0
    {
      added, fixed := 0, 0;
      var tx, sent: nat, broken := rows, 0, false;
      for i := 0 to |page|
        invariant rows == old(rows) && TxUpTo(t, fails, rows, tx, lo, page, i, sent, broken, Counts(added, fixed))
      {
        var row, n, m, next, broken' := ProcessRow(t, page[i], tx[lo + i], fails, sent, broken);
        TxStep(t, fails, rows, tx, lo, page, i, sent, broken, Counts(added, fixed), row, broken', n, m);
        added, fixed, sent, broken := added + n, fixed + m, next, broken';
        tx := tx[lo + i := row];
      }
      assert page[..|page|] == page;
      ok := !broken && !commitFails;
      if ok { rows := tx; } else { added, fixed := 0, 0; }
      CountsMean(t, page);
      PageStored(t, old(rows), tx, lo, page);
    }
  }

  /** The --dry-run branch: counts and writes nothing. */
  method DryPage(page: seq<SRow>, t: Tools) returns (added: int, fixed: int)
    ensures Counts(added, fixed) == Dry(t, page)
    ensures added == SumOf(AnnouncedDeps(t), page) && fixed == SumOf(AnnouncedFixes(t), page)
  {
    added, fixed := 0, 0;
    CountsMean(t, page);
    for i := 0 to |page|
      invariant Counts(added, fixed) == Dry(t, page[..i])
    {
      assert page[..i + 1][..i] == page[..i];
      var r := page[i];
      var f := t.extract(r.body, r.name, r.lang);
      if |f.imports| > 0 { added := added + |f.imports|; }
      var fix := (r.symbols.Some? && t.noisy(r.symbols.value)) || r.symbols.None? || r.symbols.value == "";
      if fix && f.symbols != "" { fixed := fixed + 1; }
    }
    assert page[..|page|] == page;
  }

  // ---- whole runs -------------------------------------------------------------------------

  /** A row only ever gains dependencies, keeps a clean non-empty symbol list and never gets a
      noisy or empty one. */
  ghost predicate Improves(t: Tools, o: SRow, r: SRow) {
    && o.deps <= r.deps
    && r == o.(deps := r.deps, symbols := r.symbols)
    && (r.symbols != o.symbols ==> ShouldFix(t, o.symbols) && r.symbols.Some? && Usable(t, r.symbols.value))
  }

  /** Wherever a run stops, in any interleaving. */
  lemma StaticAnyStop(c: Config, t: Tools, dryRun: bool, orig: seq<SRow>, steps: seq<Step>, k: nat)
    requires CanRun(c, Init(c, |orig|), steps) && k < |orig|
    ensures Improves(t, orig[k], TableAfter(c, StaticJob(t, dryRun), orig, steps).rows[k])
    ensures dryRun ==> TableAfter(c, StaticJob(t, dryRun), orig, steps).rows[k] == orig[k]
  {
    AnyStop(c, StaticJob(t, dryRun), orig, steps, k);
  }

  lemma StaticRun(c: Config, t: Tools, orig: seq<SRow>, steps: seq<Step>, k: nat)
    requires CanRun(c, Init(c, |orig|), steps) && c.workers >= 1 && c.limit == 0 && k < |orig|
    requires var s := After(c, Init(c, |orig|), steps); Finished(s) && !s.failed
    ensures TableAfter(c, StaticJob(t, false), orig, steps).rows[k] == WriteRow(t, orig[k], orig[k])
  {
    LimitBound(c, |orig|, steps);
    FinishedRows(c, StaticJob(t, false), orig, steps, k);
  }

  /** What a finished run without errors leaves: the rows it processed, all without a limit, hold
      what the extractor found for them, the others are as they were. */
  lemma StaticResult(c: Config, t: Tools, orig: seq<SRow>, steps: seq<Step>, k: nat)
    requires CanRun(c, Init(c, |orig|), steps) && c.workers >= 1 && k < |orig|
    requires var s := After(c, Init(c, |orig|), steps); Finished(s) && !s.failed
    ensures var r := TableAfter(c, StaticJob(t, false), orig, steps).rows[k];
            if k < After(c, Init(c, |orig|), steps).processed then StoredAs(t, orig[k], orig[k], r) else r == orig[k]
    ensures c.limit == 0 ==> After(c, Init(c, |orig|), steps).processed == |orig|
  {
    LimitBound(c, |orig|, steps);
    FinishedRows(c, StaticJob(t, false), orig, steps, k);
    WriteRowStores(t, orig[k], orig[k]);
  }

  lemma WrittenRowIsStable(t: Tools, o: SRow)
    ensures var r := WriteRow(t, o, o);
            Stable(t, r)
  {
    var r := WriteRow(t, o, o);
    assert Extract(t, r) == Extract(t, o);
    assert r.deps + Wanted(Extract(t, r).imports) == r.deps;
  }

  predicate Stable(t: Tools, r: SRow) {
    WriteRow(t, r, r) == r && DepsAdded(t, r, r) == 0 && SymsFixed(t, r) == 0
  }

  // ---- the printed totals -----------------------------------------------------------------

  /** What the page's transaction counts for a row; --dry-run counts what it extracted. */
  function DepsMeter(t: Tools, dryRun: bool): Meter<SRow> {
    Meter((snap: SRow, cur: SRow) => if dryRun then DryDeps(t, snap) else DepsAdded(t, snap, cur),
          (snap: SRow, cur: SRow) => 0)
  }

  function SymsMeter(t: Tools, dryRun: bool): Meter<SRow> {
    Meter((snap: SRow, cur: SRow) => if dryRun then DrySyms(t, snap) else SymsFixed(t, snap),
          (snap: SRow, cur: SRow) => 0)
  }

  /** The two totals a run prints. */
  function Totals(c: Config, t: Tools, dryRun: bool, orig: seq<SRow>, steps: seq<Step>): Counts
    requires CanRun(c, Init(c, |orig|), steps)
  {
    Counts(LedgerAfter(c, StaticJob(t, dryRun), DepsMeter(t, dryRun), orig, steps).total,
           LedgerAfter(c, StaticJob(t, dryRun), SymsMeter(t, dryRun), orig, steps).total)
  }

  lemma RealGains(t: Tools, rows: seq<SRow>)
    ensures Counts(SumOf(Gain(StaticJob(t, false), DepsMeter(t, false)), rows),
                   SumOf(Gain(StaticJob(t, false), SymsMeter(t, false)), rows)) == Real(t, rows)
  {
    SumOfPointwise(Gain(StaticJob(t, false), DepsMeter(t, false)), (o: SRow) => DepsAdded(t, o, o), rows, rows);
    SumOfPointwise(Gain(StaticJob(t, false), SymsMeter(t, false)), (o: SRow) => SymsFixed(t, o), rows, rows);
  }

  lemma DryGains(t: Tools, rows: seq<SRow>)
    ensures Counts(SumOf(Gain(StaticJob(t, true), DepsMeter(t, true)), rows),
                   SumOf(Gain(StaticJob(t, true), SymsMeter(t, true)), rows)) == Dry(t, rows)
  {
    SumOfPointwise(Gain(StaticJob(t, true), DepsMeter(t, true)), (o: SRow) => DryDeps(t, o), rows, rows);
    SumOfPointwise(Gain(StaticJob(t, true), SymsMeter(t, true)), (o: SRow) => DrySyms(t, o), rows, rows);
  }

  /** The totals of a finished run without errors are those of the rows it processed, in every
      interleaving. */
  lemma StaticTotals(c: Config, t: Tools, dryRun: bool, orig: seq<SRow>, steps: seq<Step>)
    requires CanRun(c, Init(c, |orig|), steps) && c.workers >= 1
    requires var s := After(c, Init(c, |orig|), steps); Finished(s) && !s.failed
    ensures var n := After(c, Init(c, |orig|), steps).processed;
            && n <= |orig|
            && Totals(c, t, dryRun, orig, steps) == if dryRun then Dry(t, orig[..n]) else Real(t, orig[..n])
  {
    var n := After(c, Init(c, |orig|), steps).processed;
    FinishedTotal(c, StaticJob(t, dryRun), DepsMeter(t, dryRun), orig, steps);
    FinishedTotal(c, StaticJob(t, dryRun), SymsMeter(t, dryRun), orig, steps);
    if dryRun { DryGains(t, orig[..n]); } else { RealGains(t, orig[..n]); }
  }

  /** The same on the rows themselves. */
  lemma StaticTotalsMean(c: Config, t: Tools, dryRun: bool, orig: seq<SRow>, steps: seq<Step>)
    requires CanRun(c, Init(c, |orig|), steps) && c.workers >= 1
    requires var s := After(c, Init(c, |orig|), steps); Finished(s) && !s.failed
    ensures var n := After(c, Init(c, |orig|), steps).processed;
            && n <= |orig|
            && Totals(c, t, dryRun, orig, steps)
               == if dryRun then Counts(SumOf(AnnouncedDeps(t), orig[..n]), SumOf(AnnouncedFixes(t), orig[..n]))
                  else Counts(SumOf(NewDeps(t), orig[..n]), SumOf(FixedLists(t), orig[..n]))
  {
    StaticTotals(c, t, dryRun, orig, steps);
    CountsMean(t, orig[..After(c, Init(c, |orig|), steps).processed]);
  }

  /** A dry run and then a real one, whatever their interleavings and numbers of workers: what
      the dry run announced bounds what the real one reports. */
  lemma DryRunIsUpperBound(c: Config, c': Config, t: Tools, orig: seq<SRow>, dry: seq<Step>, again: seq<Step>)
    requires CanRun(c, Init(c, |orig|), dry) && c.workers >= 1 && c.limit == 0
    requires CanRun(c', Init(c', |orig|), again) && c'.workers >= 1 && c'.limit == 0
    requires var s := After(c, Init(c, |orig|), dry); Finished(s) && !s.failed
    requires var s := After(c', Init(c', |orig|), again); Finished(s) && !s.failed
    ensures var d, r := Totals(c, t, true, orig, dry), Totals(c', t, false, orig, again);
            0 <= r.deps <= d.deps && 0 <= r.syms <= d.syms
  {
    LimitBound(c, |orig|, dry);
    LimitBound(c', |orig|, again);
    StaticTotals(c, t, true, orig, dry);
    StaticTotals(c', t, false, orig, again);
    DryBoundsReal(t, orig[..|orig|]);
  }

  lemma StableTotals(c: Config, t: Tools, rows: seq<SRow>, steps: seq<Step>)
    requires CanRun(c, Init(c, |rows|), steps) && forall k | 0 <= k < |rows| :: Stable(t, rows[k])
    ensures Totals(c, t, false, rows, steps) == Counts(0, 0)
  {
    var job, deps, syms := StaticJob(t, false), DepsMeter(t, false), SymsMeter(t, false);
    forall k | 0 <= k < |rows| ensures Gain(job, deps)(rows[k]) == 0 && Gain(job, syms)(rows[k]) == 0 {
      assert Stable(t, rows[k]);
    }
    RunLedger(c, job, deps, rows, steps);
    RunLedger(c, job, syms, rows, steps);
    NoGain(Gain(job, deps), rows, After(c, Init(c, |rows|), steps).pages);
    NoGain(Gain(job, syms), rows, After(c, Init(c, |rows|), steps).pages);
  }

  /** Over stable rows a run writes nothing, wherever it stands. */
  lemma StableRun(c: Config, t: Tools, rows: seq<SRow>, steps: seq<Step>)
    requires CanRun(c, Init(c, |rows|), steps) && forall k | 0 <= k < |rows| :: Stable(t, rows[k])
    ensures TableAfter(c, StaticJob(t, false), rows, steps).rows == rows
  {
    var after := TableAfter(c, StaticJob(t, false), rows, steps).rows;
    forall k | 0 <= k < |rows| ensures after[k] == rows[k] {
      assert Stable(t, rows[k]);
      AnyStop(c, StaticJob(t, false), rows, steps, k);
    }
  }

  /** After a complete run a second one writes nothing: wherever it stands, no row has changed
      and its counters are zero. */
  lemma SecondRunWritesNothing(c: Config, c': Config, t: Tools, orig: seq<SRow>, first: seq<Step>, second: seq<Step>)
    requires CanRun(c, Init(c, |orig|), first) && c.workers >= 1 && c.limit == 0
    requires var s := After(c, Init(c, |orig|), first); Finished(s) && !s.failed
    requires CanRun(c', Init(c', |orig|), second)
    ensures var rows := TableAfter(c, StaticJob(t, false), orig, first).rows;
            && TableAfter(c', StaticJob(t, false), rows, second).rows == rows
            && Totals(c', t, false, rows, second) == Counts(0, 0)
  {
    var rows := TableAfter(c, StaticJob(t, false), orig, first).rows;
    forall k | 0 <= k < |rows| ensures Stable(t, rows[k]) {
      StaticRun(c, t, orig, first, k);
      WrittenRowIsStable(t, orig[k]);
    }
    StableRun(c', t, rows, second);
    StableTotals(c', t, rows, second);
  }
}
