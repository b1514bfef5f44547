/** kb capture, kb gc and kb gc --orphan-folders over the two stores. Every step may fail or be
    the last one; SnapshotStore and SnapshotGc say what a run that gets through leaves. */
module SnapshotRuntime {
  import opened Basics
  import opened LeafCodec
  import opened SnapshotStore
  import opened SnapshotGc

  /** What an interrupted RemoveAll got to below its target: directories removed with all they
      held, directories emptied of their files, and directories with some file lost. made: how
      many directories an interrupted MkdirAll went down. */
  datatype Remains = Remains(gone: set<Path>, cleared: set<Path>, spoiled: set<Path>, made: nat)

  /** What one step meets. durable: a step reported as failed took effect anyway. */
  datatype StepFate = Fine | Fail(durable: bool, left: Remains) | Die(durable: bool, left: Remains)

  datatype Outcome = Completed | Failed | Killed

  function Report(f: StepFate): Outcome {
    if f.Fine? then Completed else if f.Fail? then Failed else Killed
  }

  predicate TookEffect(f: StepFate) {
    f.Fine? || f.durable
  }

  datatype Selection = ByAge(cutoff: Option<int>, keep: Option<nat>) | EmptyOnly(app: Option<string>)

  /** The candidates; rn is how the database numbered the rows. Without any bound the command only
      prints its help. */
  function Picked(c: Catalog, sel: Selection, rn: nat -> nat): set<nat> {
    match sel
    case ByAge(cutoff, keep) =>
      if cutoff.None? && keep.None? then {} else Candidates(c.sources, rn, cutoff, keep)
    case EmptyOnly(app) => EmptyOnes(c, app)
  }

  /** The sources a gc that gets through leaves. */
  ghost predicate LeftBy(sel: Selection, was: Catalog, now: Rows) {
    match sel
    case ByAge(cutoff, keep) =>
      if cutoff.None? && keep.None? then now == was.sources else LeftByAge(was.sources, now, cutoff, keep)
    case EmptyOnly(app) => LeftByEmpty(was, now, app)
  }

  lemma PickedLeaves(c: Catalog, sel: Selection, rn: nat -> nat)
    requires IsRowNumber(c.sources, rn)
    ensures LeftBy(sel, c, c.sources - Picked(c, sel, rn))
  {
    match sel
    case ByAge(cutoff, keep) =>
      if cutoff.Some? || keep.Some? { SelectionLeaves(c.sources, rn, cutoff, keep); }
    case EmptyOnly(app) => EmptySelectionLeaves(c, app);
  }

  lemma PickedAreRows(c: Catalog, sel: Selection, rn: nat -> nat)
    ensures forall i | i in Picked(c, sel, rn) :: i in c.sources
  {
  }

  /** children is what the command leaves in the tables that refer to sources and modules. */
  datatype Cmd =
    | Capture(ks: Ks, now: int, skip: bool, children: seq<Child>)
    | Gc(sel: Selection, tie: nat -> nat)
    | OrphanFolders
    | OtherSource(kb: Option<string>, epoch: int, now: int)
    | OtherWrite(children: seq<Child>, components: set<nat>)

  ghost predicate GoodCmd(c: Cmd) {
    match c
    case Capture(ks, _, _, _) => GoodKs(ks)
    case Gc(_, tie) => forall i, j :: tie(i) == tie(j) ==> i == j
    case _ => true
  }

  // ---- honest clocks --------------------------------------------------------------------

  predicate HonestRow(site: Site, r: Row) {
    r.ks.Some? ==> GoodKs(r.ks.value) && SelfSpared(site, r.ks.value, r.capturedAt)
  }

  /** A capture whose row will spare its own folder. */
  predicate Honest(site: Site, c: Cmd) {
    c.Capture? ==> GoodKs(c.ks) && SelfSpared(site, c.ks, c.now)
  }

  /** Each row spares its own folder; without colons in versions, each capture read both clocks
      in one millisecond. */
  predicate HonestRows(site: Site, rows: Rows) {
    forall i | i in rows :: HonestRow(site, rows[i])
  }

  lemma HonestIsSpared(site: Site, rows: Rows)
    requires GoodRows(rows) && HonestRows(site, rows)
    ensures AllSpared(site, rows)
  {
    forall i | i in rows && rows[i].ks.Some?
      ensures GoodRow(rows[i]) && Spared(site, rows, rows[i].ks.value)
    {
      assert HonestRow(site, rows[i]) && GoodRow(rows[i]);
    }
  }

  // ---- folders apart ---------------------------------------------------------------------

  /** No folder of these snapshots lies in another's. SnapshotStore.FlatNeverNests gives it for
      versions without a slash after a colon. */
  ghost predicate Unnested(site: Site, plan: set<Ks>) {
    forall a, b | a in plan && b in plan && GoodKs(a) && GoodKs(b) ::
      Below(FolderOf(site, a), FolderOf(site, b)) ==> FolderOf(site, a) == FolderOf(site, b)
  }

  ghost predicate RowsOf(rows: Rows, plan: set<Ks>) {
    forall i | i in rows && rows[i].ks.Some? :: rows[i].ks.value in plan
  }

  lemma UnnestedRows(site: Site, d: Disk, rows: Rows, plan: set<Ks>)
    requires Safe(site, d, rows) && RowsOf(rows, plan) && Unnested(site, plan)
    ensures NoNesting(site, rows)
    ensures forall ids :: NoneInside(site, rows, ids)
  {
    forall i, j, p, q | OwnedBy(site, rows, i, p) && OwnedBy(site, rows, j, q) && i != j ensures !Below(p, q) {
      assert GoodRow(rows[i]) && GoodRow(rows[j]);
      assert rows[i].ks.value in plan && rows[j].ks.value in plan;
      assert !OwnedBy(site, rows, j, p);
    }
  }

  // ---- epochs ------------------------------------------------------------------------------

  /** MAX(epoch) over the rows of one app with ids below n. */
  function MaxEpoch(rows: Rows, kb: string, n: nat): Option<int> {
    if n == 0 then None
    else
      var below := MaxEpoch(rows, kb, n - 1);
      if n - 1 !in rows || rows[n - 1].kb != Some(kb) then below
      else if below.Some? && below.value >= rows[n - 1].epoch then below
      else Some(rows[n - 1].epoch)
  }

  /** COALESCE(MAX(epoch), 0) + 1 */
  function NextEpoch(rows: Rows, kb: string, n: nat): int {
    match MaxEpoch(rows, kb, n)
    case None => 1
    case Some(m) => m + 1
  }

  lemma {:induction false} NextEpochIsNew(rows: Rows, kb: string, n: nat, i: nat)
    requires i < n && i in rows && rows[i].kb == Some(kb)
    ensures MaxEpoch(rows, kb, n).Some? && rows[i].epoch <= MaxEpoch(rows, kb, n).value
  {
    if i == n - 1 {
    } else {
      NextEpochIsNew(rows, kb, n - 1, i);
    }
  }

  predicate RowBelow(rows: Rows, kb: string, n: nat, i: nat) {
    i < n && i in rows && rows[i].kb == Some(kb)
  }

  /** It is 1 for an app's first row and otherwise one above the highest epoch of the app. */
  lemma {:induction false} NextEpochIsMaxPlusOne(rows: Rows, kb: string, n: nat)
    ensures MaxEpoch(rows, kb, n).None? ==> NextEpoch(rows, kb, n) == 1 && forall i :: !RowBelow(rows, kb, n, i)
    ensures MaxEpoch(rows, kb, n).Some? ==>
              exists i :: RowBelow(rows, kb, n, i) && NextEpoch(rows, kb, n) == rows[i].epoch + 1
    ensures forall i | RowBelow(rows, kb, n, i) :: rows[i].epoch < NextEpoch(rows, kb, n)
  {
    if n == 0 {
    } else {
      NextEpochIsMaxPlusOne(rows, kb, n - 1);
      assert forall i | RowBelow(rows, kb, n, i) && i != n - 1 :: RowBelow(rows, kb, n - 1, i);
      if MaxEpoch(rows, kb, n).Some? {
        if MaxEpoch(rows, kb, n) == MaxEpoch(rows, kb, n - 1) {
          var i :| RowBelow(rows, kb, n - 1, i) && NextEpoch(rows, kb, n - 1) == rows[i].epoch + 1;
          assert RowBelow(rows, kb, n, i);
        } else {
          assert RowBelow(rows, kb, n, n - 1);
        }
      }
    }
  }

  /** A capture's epoch never collides with another row of its app. */
  lemma CaptureKeepsEpochsUnique(rows: Rows, id: nat, ks: Ks, now: int)
    requires UniqueEpochs(rows) && forall i | i in rows :: i < id
    ensures UniqueEpochs(rows[id := NewRow(ks, NextEpoch(rows, ks.kb, id), now)])
    ensures forall i | i in rows && rows[i].kb == Some(ks.kb) :: rows[i].epoch < NextEpoch(rows, ks.kb, id)
  {
    forall i | i in rows && rows[i].kb == Some(ks.kb) ensures rows[i].epoch < NextEpoch(rows, ks.kb, id) {
      NextEpochIsNew(rows, ks.kb, id, i);
    }
  }

  // ---- what a step leaves on disk ----------------------------------------------------------

  /** now is was with things lost under ps only. */
  ghost predicate OnlyUnder(ps: set<Path>, was: Disk, now: Disk) {
    && DiskOk(now) && now.dirs <= was.dirs && now.files <= was.files && now.whole <= was.whole
    && forall q | !UnderAny(ps, q) ::
         && (q in was.dirs ==> q in now.dirs) && (q in was.files ==> q in now.files)
         && (q in was.whole ==> q in now.whole)
  }

  function Beneath(p: Path, qs: set<Path>): set<Path> {
    set q | q in qs && Below(p, q)
  }

  function Interrupted(d: Disk, p: Path, left: Remains): Disk {
    var part := RemoveTrees(d, Beneath(p, left.gone));
    Disk(part.dirs, part.files - Beneath(p, left.cleared), part.whole - Beneath(p, left.cleared + left.spoiled))
  }

  lemma RemovedUnder(d: Disk, ps: set<Path>)
    requires DiskOk(d)
    ensures OnlyUnder(ps, d, RemoveTrees(d, ps))
  {
    RemoveTreesIsOk(d, ps);
  }

  lemma NothingLost(d: Disk, ps: set<Path>)
    requires DiskOk(d)
    ensures OnlyUnder(ps, d, d)
  {
  }

  lemma InterruptedUnder(d: Disk, p: Path, left: Remains)
    requires DiskOk(d)
    ensures OnlyUnder({p}, d, Interrupted(d, p, left))
  {
    RemoveTreesIsOk(d, Beneath(p, left.gone));
    forall q | !UnderAny({p}, q) ensures !UnderAny(Beneath(p, left.gone), q) && !Below(p, q) {
      assert p in {p};
      forall o | o in Beneath(p, left.gone) ensures !Below(o, q) {
        if Below(o, q) { BelowIsTransitive(p, o, q); }
      }
    }
  }

  lemma OnlyUnderStep(ps: set<Path>, p: Path, was: Disk, mid: Disk, now: Disk)
    requires OnlyUnder(ps, was, mid) && OnlyUnder({p}, mid, now)
    ensures OnlyUnder(ps + {p}, was, now)
  {
    forall q | !UnderAny(ps + {p}, q) ensures !UnderAny(ps, q) && !UnderAny({p}, q) {
      assert forall o | o in ps || o in {p} :: o in ps + {p};
    }
  }

  lemma RemoveTreesStep(d: Disk, ps: set<Path>, p: Path)
    ensures RemoveTrees(RemoveTrees(d, ps), {p}) == RemoveTrees(d, ps + {p})
  {
    forall q ensures UnderAny(ps + {p}, q) <==> UnderAny(ps, q) || UnderAny({p}, q) {
      assert forall o :: o in ps + {p} <==> o in ps || o in {p};
    }
  }

  lemma NothingRemoved(d: Disk)
    ensures RemoveTrees(d, {}) == d
  {
  }

  function Parent(p: Path): Path {
    if p == [] then [] else p[..|p| - 1]
  }

  /** os.MkdirAll */
  function Opened(d: Disk, p: Path): Disk {
    d.(dirs := d.dirs + Above(p))
  }

  /** Directories on the way to p may have been made. */
  ghost predicate OpenedTowards(p: Path, was: Disk, now: Disk) {
    DiskOk(now) && now.files == was.files && now.whole == was.whole && was.dirs <= now.dirs <= was.dirs + Above(p)
  }

  lemma OpenedIsTowards(d: Disk, p: Path, n: nat)
    requires DiskOk(d) && n <= |p|
    ensures OpenedTowards(p, d, Opened(d, p[..n]))
  {
    AboveIsOk(d, p[..n]);
    forall q | q in Above(p[..n]) ensures q in Above(p) {
      assert q == p[..|q|];
    }
  }

  lemma OpenedIsSafe(site: Site, d: Disk, now: Disk, rows: Rows, ks: Ks)
    requires Safe(site, d, rows) && GoodKs(ks) && OpenedTowards(FolderOf(site, ks), d, now)
    ensures Safe(site, now, rows)
    ensures Free(site, d, ks) <==> Free(site, now, ks)
    ensures Placed(now, FolderOf(site, ks)) == Placed(d, FolderOf(site, ks))
  {
    var p := FolderOf(site, ks);
    assert forall q | q in now.dirs && Below(p, q) && q != p :: q in d.dirs;
  }

  /** ingest.Run refuses a folder outside the store. */
  predicate Within(site: Site, ks: Ks)
    requires GoodKs(ks)
  {
    Below(site.root, FolderOf(site, ks))
  }

  function SomeOf(ps: seq<Path>): set<Path> {
    set p | p in ps
  }

  function Ids(candidates: seq<nat>): set<nat> {
    set c | c in candidates
  }

  lemma FoldersStep(site: Site, rows: Rows, candidates: seq<nat>, k: nat)
    requires GoodRows(rows) && k < |candidates| && candidates[k] in rows
    ensures var before := Folders(site, rows, Ids(candidates[..k]));
            var after := Folders(site, rows, Ids(candidates[..k + 1]));
            && GoodRow(rows[candidates[k]])
            && after == match rows[candidates[k]].ks {
                          case None => before
                          case Some(ks) => before + {FolderOf(site, ks)}
                        }
  {
    assert GoodRow(rows[candidates[k]]);
    assert Ids(candidates[..k + 1]) == Ids(candidates[..k]) + {candidates[k]};
  }

  lemma OnlyUnderMore(ps: set<Path>, qs: set<Path>, was: Disk, now: Disk)
    requires OnlyUnder(ps, was, now) && ps <= qs
    ensures OnlyUnder(qs, was, now)
  {
  }

  /** The file stage after k candidates; clean: nothing failed so far. */
  ghost predicate PurgedUpTo(site: Site, was: Disk, now: Disk, rows: Rows, candidates: seq<nat>, k: nat, clean: bool)
    requires GoodRows(rows) && k <= |candidates|
  {
    && OnlyUnder(Folders(site, rows, Ids(candidates[..k])), was, now)
    && (clean ==> now == RemoveTrees(was, Folders(site, rows, Ids(candidates[..k]))))
  }

  lemma PurgedNone(site: Site, was: Disk, rows: Rows, candidates: seq<nat>)
    requires GoodRows(rows) && DiskOk(was)
    ensures PurgedUpTo(site, was, was, rows, candidates, 0, true)
  {
    assert Folders(site, rows, Ids(candidates[..0])) == {};
    NothingRemoved(was);
    NothingLost(was, {});
  }

  lemma PurgedOne(site: Site, was: Disk, mid: Disk, now: Disk, rows: Rows, candidates: seq<nat>, k: nat,
                  clean: bool, done: bool)
    requires GoodRows(rows) && k < |candidates| && candidates[k] in rows && rows[candidates[k]].ks.Some?
    requires GoodRow(rows[candidates[k]]) && PurgedUpTo(site, was, mid, rows, candidates, k, clean)
    requires var p := FolderOf(site, rows[candidates[k]].ks.value);
             OnlyUnder({p}, mid, now) && (done ==> now == RemoveTrees(mid, {p}))
    ensures PurgedUpTo(site, was, now, rows, candidates, k + 1, clean && done)
  {
    var p, before := FolderOf(site, rows[candidates[k]].ks.value), Folders(site, rows, Ids(candidates[..k]));
    FoldersStep(site, rows, candidates, k);
    OnlyUnderStep(before, p, was, mid, now);
    RemoveTreesStep(was, before, p);
  }

  lemma PurgedAll(site: Site, was: Disk, now: Disk, rows: Rows, candidates: seq<nat>)
    requires GoodRows(rows)
    requires exists k :: 0 <= k <= |candidates| && PurgedUpTo(site, was, now, rows, candidates, k, false)
    ensures OnlyUnder(Folders(site, rows, Ids(candidates)), was, now)
    ensures candidates[..|candidates|] == candidates
  {
    var k :| 0 <= k <= |candidates| && PurgedUpTo(site, was, now, rows, candidates, k, false);
    assert forall c | c in candidates[..k] :: c in candidates;
    OnlyUnderMore(Folders(site, rows, Ids(candidates[..k])), Folders(site, rows, Ids(candidates)), was, now);
  }

  /** The database takes what one ingest transaction writes. */
  predicate Accepts(c: Catalog, id: nat, ks: Ks, now: int, kids: seq<Child>) {
    NoDangling(Catalog(c.sources[id := NewRow(ks, NextEpoch(c.sources, ks.kb, id), now)], kids, c.components))
  }

  /** What a gc that got through left in the database; without candidates it never opens a
      transaction. */
  predicate Settled(was: Catalog, ids: set<nat>, order: seq<Fk>, now: Catalog) {
    if ids == {} then now == was else Purge(was, ids, order) == Some(now)
  }

  method List(ids: set<nat>) returns (s: seq<nat>)
    ensures Ids(s) == ids && forall c | c in s :: c in ids
  {
    s := [];
    var todo := ids;
    while todo != {}
      invariant todo <= ids && Ids(s) == ids - todo
    {
      var i :| i in todo;
      todo := todo - {i};
      assert Ids(s + [i]) == Ids(s) + {i};
      s := s + [i];
    }
    assert forall c | c in s :: c in Ids(s);
  }

  lemma StillSafe(site: Site, was: Disk, now: Disk, all: Rows, rows: Rows, ids: set<nat>)
    requires Safe(site, was, all) && OnlyUnder(Folders(site, all, ids), was, now)
    requires (rows == all && now == was) || rows == all - ids
    ensures NoneInside(site, all, ids) ==> Safe(site, now, rows)
  {
    if NoneInside(site, all, ids) && rows == all - ids {
      PurgeIsSafe(site, was, all, ids, now);
    }
  }

  class KbStore {
    var disk: Disk
    var rows: Rows
    var children: seq<Child>
    var components: set<nat>
    var nextId: nat
    const site: Site
    const triggers: seq<Fk>
    const fate: nat -> StepFate
    var clock: nat

    function Db(): Catalog
      reads this
    {
      Catalog(rows, children, components)
    }

    ghost predicate Valid()
      reads this
    {
      Safe(site, disk, rows) && DbOk()
    }

    /** What the database holds on to by itself: keys, foreign keys and unique indexes. */
    ghost predicate DbOk()
      reads this
    {
      && (forall i | i in rows :: i < nextId)
      && UniqueEpochs(rows) && NoDangling(Db()) && CoversSchema(triggers)
    }

    constructor (site: Site, triggers: seq<Fk>, fate: nat -> StepFate)
      requires GoodSite(site) && CoversSchema(triggers)
      ensures Valid() && disk == Disk({}, {}, {}) && Db() == Catalog(map[], [], {})
    {
      this.site, this.triggers, this.fate := site, triggers, fate;
      disk, rows, children, components, nextId, clock := Disk({}, {}, {}), map[], [], {}, 0, 0;
    }

    /** No step fails and the process lives. */
    ghost predicate AllFine() {
      forall i: nat :: fate(i).Fine?
    }

    method Step() returns (f: StepFate)
      modifies this`clock
      ensures AllFine() ==> f.Fine?
    {
      f := fate(clock);
      clock := clock + 1;
    }

    // ---- kb capture -----------------------------------------------------------------

    /** The directories above the target, then os.Rename onto it; staged says whether the
        snapshot now lives there. */
    method Promote(ks: Ks) returns (out: Outcome, staged: bool)
      requires Valid() && GoodKs(ks)
      modifies this`clock, this`disk
      ensures Safe(site, disk, rows)
      ensures out.Completed? ==> staged
      ensures AllFine() && Free(site, old(disk), ks) ==> out.Completed?
      ensures staged ==> Free(site, old(disk), ks) && disk == Placed(old(disk), FolderOf(site, ks))
      ensures !staged ==> OpenedTowards(FolderOf(site, ks), old(disk), disk)
    {
      var target := FolderOf(site, ks);
      ghost var was := disk;
      var f := Step();
      var depth := if f.Fine? then |Parent(target)| else Min(f.left.made, |Parent(target)|);
      OpenedIsTowards(disk, target, depth);
      disk := Opened(disk, target[..depth]);
      OpenedIsSafe(site, was, disk, rows, ks);
      if !f.Fine? { return Report(f), false; }
      if !Free(site, disk, ks) { return Failed, false; }
      f := Step();
      staged := TookEffect(f);
      if staged {
        CaptureIsSafe(site, disk, rows, nextId, ks, 0, 0);
        disk := Placed(disk, target);
      }
      out := Report(f);
    }

    /** ingest.Run: one transaction, or nothing when the binary is already known. */
    method Ingest(ghost before: Disk, ks: Ks, now: int, skip: bool, kids: seq<Child>)
      returns (out: Outcome, wrote: bool)
      requires GoodKs(ks) && DbOk() && Safe(site, before, rows) && Free(site, before, ks)
      requires disk == Placed(before, FolderOf(site, ks))
      modifies this`clock, this`rows, this`children, this`nextId
      ensures Valid()
      ensures wrote ==> rows == old(rows)[old(nextId) := NewRow(ks, NextEpoch(old(rows), ks.kb, old(nextId)), now)]
      ensures wrote ==> children == kids && site.root <= FolderOf(site, ks)
      ensures !wrote ==> Db() == old(Db())
      ensures out.Completed? ==> wrote == !skip
      ensures AllFine() && (skip || (Within(site, ks) && Accepts(old(Db()), old(nextId), ks, now, kids))) ==>
                out.Completed?
    {
      var row := NewRow(ks, NextEpoch(rows, ks.kb, nextId), now);
      CaptureIsSafe(site, before, rows, nextId, ks, row.epoch, now);
      CaptureKeepsEpochsUnique(rows, nextId, ks, now);
      var f := Step();
      if !skip && (!Within(site, ks) || !NoDangling(Catalog(rows[nextId := row], kids, components))) {
        nextId := nextId + 1;
        return if f.Die? then Killed else Failed, false;
      }
      wrote := !skip && TookEffect(f);
      if wrote { rows, children := rows[nextId := row], kids; }
      nextId := nextId + 1;
      out := Report(f);
    }

    /** Stage, rename, then ingest. Success without a skip means the folder is complete and its
        row committed; a row is never committed without its folder. */
    method RunCapture(ks: Ks, now: int, skip: bool, kids: seq<Child>) returns (out: Outcome)
      requires Valid() && GoodKs(ks)
      modifies this
      ensures Valid()
      ensures || rows == old(rows)
              || rows == old(rows)[old(nextId) := NewRow(ks, NextEpoch(old(rows), ks.kb, old(nextId)), now)]
      ensures || disk == Placed(old(disk), FolderOf(site, ks))
              || (OpenedTowards(FolderOf(site, ks), old(disk), disk) && Db() == old(Db()))
      ensures out.Completed? ==> disk == Placed(old(disk), FolderOf(site, ks)) && (rows == old(rows) <==> skip)
      ensures (AllFine() && Free(site, old(disk), ks)
               && (skip || (Within(site, ks) && Accepts(old(Db()), old(nextId), ks, now, kids)))) ==> out.Completed?
    {
      ghost var before := disk;
      var f := Step();
      if !f.Fine? { return Report(f); }
      var staged, wrote;
      out, staged := Promote(ks);
      if !out.Completed? { return; }
      out, wrote := Ingest(before, ks, now, skip, kids);
      if wrote { assert old(nextId) in rows && old(nextId) !in old(rows); }
    }

    // ---- removing folders ---------------------------------------------------------------

    /** os.RemoveAll, which may stop half way. */
    method RemoveAll(p: Path) returns (out: Outcome)
      requires DiskOk(disk)
      modifies this`clock, this`disk
      ensures OnlyUnder({p}, old(disk), disk)
      ensures AllFine() ==> out.Completed?
      ensures out.Completed? ==> disk == RemoveTrees(old(disk), {p})
    {
      var f := Step();
      if f.Fine? {
        RemovedUnder(disk, {p});
        disk := RemoveTrees(disk, {p});
      } else {
        InterruptedUnder(disk, p, f.left);
        disk := Interrupted(disk, p, f.left);
      }
      out := Report(f);
    }

    // ---- kb gc ------------------------------------------------------------------------

    /** Begin, delete, clean up, commit. */
    method DatabaseStage(ids: set<nat>) returns (out: Outcome)
      requires DbOk()
      modifies this`clock, this`rows, this`children, this`components
      ensures DbOk()
      ensures Db() == old(Db()) || Purge(old(Db()), ids, triggers) == Some(Db())
      ensures rows == old(rows) || rows == old(rows) - ids
      ensures out.Completed? ==> Purge(old(Db()), ids, triggers) == Some(Db()) && rows == old(rows) - ids
      ensures AllFine() ==> (out.Completed? <==> Purge(old(Db()), ids, triggers).Some?)
    {
      PurgeIsClean(Db(), ids, triggers);
      var f := Step();
      if !f.Fine? { return Report(f); }
      f := Step();
      if !f.Fine? { return Report(f); }
      var left := DeleteSources(Db(), ids, triggers);
      if left.None? { return Failed; }
      f := Step();
      if !f.Fine? { return Report(f); }
      var after := CleanUp(left.value);
      f := Step();
      if TookEffect(f) {
        rows, children, components := after.sources, after.children, after.components;
      }
      out := Report(f);
    }

    /** The file stage: failures are noted and passed over, rows without a ks_id have nothing
        on disk. */
    method PurgeFolders(all: Rows, candidates: seq<nat>) returns (out: Outcome, failures: nat)
      requires GoodRows(all) && DiskOk(disk) && forall c | c in candidates :: c in all
      modifies this`clock, this`disk
      ensures exists k :: 0 <= k <= |candidates| && PurgedUpTo(site, old(disk), disk, all, candidates, k, false)
      ensures AllFine() ==> out.Completed? && failures == 0
      ensures out.Completed? && failures == 0 ==>
                PurgedUpTo(site, old(disk), disk, all, candidates, |candidates|, true)
    {
      failures, out := 0, Completed;
      ghost var was := disk;
      PurgedNone(site, was, all, candidates);
      for k := 0 to |candidates|
        invariant out.Completed? && PurgedUpTo(site, was, disk, all, candidates, k, failures == 0)
        invariant AllFine() ==> failures == 0
      {
        FoldersStep(site, all, candidates, k);
        var row := all[candidates[k]];
        if row.ks.Some? {
          ghost var mid := disk;
          out := RemoveAll(FolderOf(site, row.ks.value));
          PurgedOne(site, was, mid, disk, all, candidates, k, failures == 0, out.Completed?);
          if out.Killed? { return; }
          if out.Failed? { failures := failures + 1; }
          out := Completed;
        }
      }
      assert PurgedUpTo(site, was, disk, all, candidates, |candidates|, false);
    }

    /** The folders of what was purged, unless the store's root cannot be resolved. */
    method RemovePurged(all: Rows, candidates: seq<nat>) returns (out: Outcome, failures: nat)
      requires GoodRows(all) && DiskOk(disk) && forall c | c in candidates :: c in all
      modifies this`clock, this`disk
      ensures OnlyUnder(Folders(site, all, Ids(candidates)), old(disk), disk)
      ensures AllFine() ==> out.Completed? && failures == 0
      ensures out.Completed? && failures == 0 ==>
                disk == RemoveTrees(old(disk), Folders(site, all, Ids(candidates)))
    {
      var f := Step();
      NothingLost(disk, Folders(site, all, Ids(candidates)));
      if f.Die? { return Killed, 0; }
      if f.Fail? { return Completed, 1; }
      out, failures := PurgeFolders(all, candidates);
      PurgedAll(site, old(disk), disk, all, candidates);
    }

    /** Delete the rows in one transaction, then each purged row's folder. */
    method PurgeAll(ids: set<nat>, candidates: seq<nat>) returns (out: Outcome, failures: nat)
      requires Valid() && Ids(candidates) == ids && forall c | c in candidates :: c in rows
      modifies this
      ensures nextId == old(nextId) && DbOk()
      ensures Db() == old(Db()) || Purge(old(Db()), ids, triggers) == Some(Db())
      ensures OnlyUnder(Folders(site, old(rows), ids), old(disk), disk)
      ensures NoneInside(site, old(rows), ids) ==> Valid()
      ensures out.Completed? ==> Purge(old(Db()), ids, triggers) == Some(Db()) && rows == old(rows) - ids
      ensures AllFine() ==> failures == 0 && (out.Completed? <==> Purge(old(Db()), ids, triggers).Some?)
      ensures out.Completed? && failures == 0 ==> disk == AfterGc(site, old(disk), old(rows), ids)
    {
      ghost var was := disk;
      var all := rows;
      failures := 0;
      NothingLost(disk, Folders(site, all, ids));
      out := DatabaseStage(ids);
      if out.Completed? {
        out, failures := RemovePurged(all, candidates);
      }
      StillSafe(site, was, disk, all, rows, ids);
    }

    /** Once the query has named the candidates: nothing to do without any, else purge. */
    method Collect(ids: set<nat>) returns (out: Outcome, failures: nat)
      requires Valid() && forall i | i in ids :: i in rows
      modifies this
      ensures nextId == old(nextId) && DbOk()
      ensures Db() == old(Db()) || Settled(old(Db()), ids, triggers, Db())
      ensures OnlyUnder(Folders(site, old(rows), ids), old(disk), disk)
      ensures NoneInside(site, old(rows), ids) ==> Valid()
      ensures out.Completed? ==> Settled(old(Db()), ids, triggers, Db()) && rows == old(rows) - ids
      ensures AllFine() && ids == {} ==> out.Completed?
      ensures AllFine() ==> failures == 0 && (Purge(old(Db()), ids, triggers).Some? ==> out.Completed?)
      ensures out.Completed? && failures == 0 ==> disk == AfterGc(site, old(disk), old(rows), ids)
    {
      failures := 0;
      var f := Step();
      var candidates := List(ids);
      NothingRemoved(disk);
      NothingLost(disk, Folders(site, rows, ids));
      if !f.Fine? {
        out := Report(f);
      } else if candidates == [] {
        assert ids == {} && Folders(site, rows, ids) == {};
        assert rows - ids == rows;
        out := Completed;
      } else {
        assert candidates[0] in ids;
        out, failures := PurgeAll(ids, candidates);
      }
    }

    /** Select, then purge. However the run ends nothing outside the purged rows' folders is
        touched, and the other snapshots keep row and folder if none of their folders lies in a
        purged one. A run that gets through leaves exactly the sources its bounds keep. */
    method RunGc(sel: Selection, rn: nat -> nat) returns (out: Outcome, failures: nat)
      requires Valid() && IsRowNumber(rows, rn)
      modifies this
      ensures nextId == old(nextId) && DbOk()
      ensures Db() == old(Db()) || Settled(old(Db()), Picked(old(Db()), sel, rn), triggers, Db())
      ensures OnlyUnder(Folders(site, old(rows), Picked(old(Db()), sel, rn)), old(disk), disk)
      ensures NoneInside(site, old(rows), Picked(old(Db()), sel, rn)) ==> Valid()
      ensures out.Completed? ==> Settled(old(Db()), Picked(old(Db()), sel, rn), triggers, Db())
      ensures out.Completed? ==> LeftBy(sel, old(Db()), rows)
      ensures AllFine() && Picked(old(Db()), sel, rn) == {} ==> out.Completed?
      ensures AllFine() ==>
                failures == 0
                && (Purge(old(Db()), Picked(old(Db()), sel, rn), triggers).Some? ==> out.Completed?)
      ensures out.Completed? && failures == 0 ==>
                disk == AfterGc(site, old(disk), old(rows), Picked(old(Db()), sel, rn))
    {
      PickedLeaves(Db(), sel, rn);
      PickedAreRows(Db(), sel, rn);
      out, failures := Collect(Picked(Db(), sel, rn));
    }

    // ---- kb gc --orphan-folders --------------------------------------------------------

    /** filepath.WalkDir with its callback, which turns back at depth three: below p, the
        directories to remove. One that cannot be read is passed over with a warning; a failing
        query ends the walk. */
    method Walk(p: Path) returns (out: Outcome, candidates: seq<Path>, warned: bool)
      requires DiskOk(disk) && p in disk.dirs && Below(Apps(site), p) && |p| <= |site.root| + 4
      requires |p| >= |site.root| + 3 ==> p[|site.root| + 2] == "versions"
      modifies this`clock
      ensures AllFine() ==> out.Completed? && !warned
      ensures forall q | q in candidates :: q in Orphans(site, disk, rows) && Below(p, q)
      ensures out.Completed? && !warned ==> forall q | q in Orphans(site, disk, rows) && Below(p, q) :: q in candidates
      decreases |site.root| + 4 - |p|, 0
    {
      candidates, out, warned := [], Completed, false;
      if |p| == |site.root| + 4 {
        var f := Step();
        if !f.Fine? { return Report(f), [], false; }
        if Orphan(site, rows, p) { candidates := [p]; }
        forall q | q in Orphans(site, disk, rows) && Below(p, q) ensures q == p { }
        return;
      }
      var f := Step();
      if f.Die? { return Killed, [], false; }
      if f.Fail? { return Completed, [], true; }
      out, candidates, warned := WalkEach(p, Entries(disk, p));
    }

    method WalkEach(p: Path, entries: set<Path>) returns (out: Outcome, candidates: seq<Path>, warned: bool)
      requires DiskOk(disk) && Below(Apps(site), p) && |p| < |site.root| + 4 && entries == Entries(disk, p)
      requires |p| >= |site.root| + 3 ==> p[|site.root| + 2] == "versions"
      modifies this`clock
      ensures AllFine() ==> out.Completed? && !warned
      ensures forall q | q in candidates :: q in Orphans(site, disk, rows) && Below(p, q)
      ensures out.Completed? && !warned ==> forall q | q in Orphans(site, disk, rows) && Below(p, q) :: q in candidates
      decreases |site.root| + 3 - |p|, 1
    {
      candidates, out, warned := [], Completed, false;
      var todo := entries;
      while todo != {}
        invariant todo <= entries && out.Completed?
        invariant AllFine() ==> !warned
        invariant forall q | q in candidates :: q in Orphans(site, disk, rows) && Below(p, q)
        invariant !warned ==> forall e, q | e in entries - todo && q in Orphans(site, disk, rows) && Below(e, q) ::
                                q in candidates
        decreases |todo|
      {
        var e :| e in todo;
        todo := todo - {e};
        if |e| == |site.root| + 3 && e[|site.root| + 2] != "versions" {
          NotUnderOther(site, e);
        } else {
          var found, more;
          out, found, more := Walk(e);
          candidates, warned := candidates + found, warned || more;
          if !out.Completed? { return; }
        }
      }
      forall q | q in Orphans(site, disk, rows) && Below(p, q) ensures exists e :: e in entries && Below(e, q) {
        EntryTowards(disk, p, q);
      }
    }

    /** stat on the apps root, then the walk. */
    method Scan() returns (out: Outcome, candidates: seq<Path>, warned: bool)
      requires DiskOk(disk)
      modifies this`clock
      ensures AllFine() ==> out.Completed? && !warned
      ensures SomeOf(candidates) <= Orphans(site, disk, rows)
      ensures out.Completed? && !warned ==> SomeOf(candidates) == Orphans(site, disk, rows)
    {
      var f := Step();
      if !f.Fine? { return Report(f), [], false; }
      if Apps(site) !in disk.dirs {
        return Completed, [], false;
      }
      out, candidates, warned := Walk(Apps(site));
    }

    /** Removing what was collected, failures noted and passed over. */
    method RemoveEach(candidates: seq<Path>) returns (out: Outcome, failures: nat)
      requires DiskOk(disk)
      modifies this`clock, this`disk
      ensures OnlyUnder(SomeOf(candidates), old(disk), disk)
      ensures AllFine() ==> out.Completed? && failures == 0
      ensures out.Completed? && failures == 0 ==> disk == RemoveTrees(old(disk), SomeOf(candidates))
    {
      failures, out := 0, Completed;
      var k := 0;
      NothingRemoved(disk);
      assert SomeOf(candidates[..0]) == {};
      while k < |candidates|
        invariant 0 <= k <= |candidates| && out.Completed?
        invariant OnlyUnder(SomeOf(candidates[..k]), old(disk), disk) && (AllFine() ==> failures == 0)
        invariant failures == 0 ==> disk == RemoveTrees(old(disk), SomeOf(candidates[..k]))
      {
        ghost var mid, done := disk, SomeOf(candidates[..k]);
        out := RemoveAll(candidates[k]);
        OnlyUnderStep(done, candidates[k], old(disk), mid, disk);
        RemoveTreesStep(old(disk), done, candidates[k]);
        assert SomeOf(candidates[..k + 1]) == done + {candidates[k]};
        if out.Killed? {
          OnlyUnderMore(done + {candidates[k]}, SomeOf(candidates), old(disk), disk);
          return;
        }
        if out.Failed? { failures := failures + 1; }
        out := Completed;
        k := k + 1;
      }
      assert candidates[..k] == candidates;
    }

    /** Touches nothing outside directories that are orphans; a pass without failures or
        warnings removes them all. When every snapshot is spared (SnapshotStore.PassIsSafeIff) an
        interrupted pass is safe as well. */
    method RunOrphanFolders() returns (out: Outcome, failures: nat, warned: bool)
      requires Valid()
      modifies this
      ensures Db() == old(Db()) && nextId == old(nextId)
      ensures AllFine() ==> out.Completed? && failures == 0 && !warned
      ensures OnlyUnder(Orphans(site, old(disk), rows), old(disk), disk)
      ensures out.Completed? && failures == 0 && !warned ==> disk == AfterPass(site, old(disk), rows)
      ensures AllSpared(site, rows) ==> Valid()
    {
      ghost var was := disk;
      failures := 0;
      var candidates;
      out, candidates, warned := Scan();
      NothingRemoved(disk);
      assert OnlyUnder({}, was, was);
      if out.Completed? {
        out, failures := RemoveEach(candidates);
        OnlyUnderMore(SomeOf(candidates), Orphans(site, was, rows), was, disk);
      }
      if AllSpared(site, rows) { SparedStay(site, was, disk, rows); }
    }

    // ---- any session ---------------------------------------------------------------------

    /** A source from one of the writers that keep no folder; the unique index may refuse it. */
    method OtherRow(kb: Option<string>, epoch: int, now: int) returns (wrote: bool)
      requires Valid()
      modifies this
      ensures Valid() && disk == old(disk)
      ensures wrote <==> kb.None? || forall i | i in old(rows) && old(rows)[i].kb == kb :: old(rows)[i].epoch != epoch
      ensures rows == if wrote then old(rows)[old(nextId) := Row(kb, None, epoch, now)] else old(rows)
    {
      wrote := kb.None? || forall i | i in rows && rows[i].kb == kb :: rows[i].epoch != epoch;
      if wrote {
        var row := Row(kb, None, epoch, now);
        OtherIsSafe(site, disk, rows, nextId, row);
        MoreSources(Db(), nextId, row);
        rows := rows[nextId := row];
      }
      nextId := nextId + 1;
    }

    /** Any other statement on the tables around sources; foreign keys may refuse it. */
    method OtherTables(kids: seq<Child>, classified: set<nat>) returns (wrote: bool)
      requires Valid()
      modifies this`children, this`components
      ensures Valid()
      ensures wrote <==> NoDangling(Catalog(rows, kids, classified))
      ensures Db() == if wrote then Catalog(rows, kids, classified) else old(Db())
    {
      wrote := NoDangling(Catalog(rows, kids, classified));
      if wrote { children, components := kids, classified; }
    }

    lemma StillHonest(was: Rows, now: Rows, c: Cmd, plan: set<Ks>)
      requires GoodRows(now) && RowsOf(was, plan) && (c.Capture? ==> c.ks in plan)
      requires forall i | i in now ::
                 || (i in was && now[i] == was[i]) || now[i].ks.None?
                 || (c.Capture? && now[i].ks == Some(c.ks) && now[i].capturedAt == c.now)
      requires GoodCmd(c)
      ensures RowsOf(now, plan)
      ensures Honest(site, c) && HonestRows(site, was) ==> HonestRows(site, now)
    {
      if Honest(site, c) && HonestRows(site, was) {
        forall i | i in now ensures HonestRow(site, now[i]) {
          if i in was { assert HonestRow(site, was[i]); }
        }
      }
    }

    method RunCollector(sel: Selection, tie: nat -> nat, ghost plan: set<Ks>)
      requires Valid() && RowsOf(rows, plan) && Unnested(site, plan) && forall i, j :: tie(i) == tie(j) ==> i == j
      modifies this
      ensures Valid() && forall i | i in rows :: i in old(rows) && rows[i] == old(rows)[i]
    {
      RankingIsRowNumber(rows, tie);
      UnnestedRows(site, disk, rows, plan);
      PurgeIsClean(Db(), Picked(Db(), sel, Ranking(rows, tie)), triggers);
      var o, f := RunGc(sel, Ranking(rows, tie));
    }

    method Run(c: Cmd, ghost plan: set<Ks>)
      requires Valid() && GoodCmd(c) && RowsOf(rows, plan) && (c.Capture? ==> c.ks in plan)
      requires c.Gc? ==> Unnested(site, plan)
      requires c.OrphanFolders? ==> HonestRows(site, rows)
      modifies this
      ensures Valid() && RowsOf(rows, plan)
      ensures Honest(site, c) && HonestRows(site, old(rows)) ==> HonestRows(site, rows)
    {
      match c
      case Capture(ks, now, skip, kids) => { var o := RunCapture(ks, now, skip, kids); }
      case Gc(sel, tie) => { RunCollector(sel, tie, plan); }
      case OrphanFolders => {
        HonestIsSpared(site, rows);
        var o, f, w := RunOrphanFolders();
      }
      case OtherSource(kb, epoch, now) => { var w := OtherRow(kb, epoch, now); }
      case OtherWrite(kids, classified) => { var w := OtherTables(kids, classified); }
      StillHonest(old(rows), rows, c, plan);
    }

    /** Over any run of the commands, each failing or dying anywhere: every committed snapshot
        has its folder, epochs stay unique and no reference dangles, as long as no orphan pass
        runs or every capture's own row spares its folder, and no gc runs or no folder lies in
        another. */
    method Session(cmds: seq<Cmd>, ghost plan: set<Ks>)
      requires Valid() && RowsOf(rows, plan)
      requires forall c | c in cmds :: GoodCmd(c) && (c.Capture? ==> c.ks in plan)
      requires (forall c | c in cmds :: !c.Gc?) || Unnested(site, plan)
      requires || (forall c | c in cmds :: !c.OrphanFolders?)
               || (HonestRows(site, rows) && forall c | c in cmds :: Honest(site, c))
      modifies this
      ensures Valid()
    {
      var k := 0;
      while k < |cmds|
        invariant 0 <= k <= |cmds| && Valid() && RowsOf(rows, plan)
        invariant || (forall c | c in cmds :: !c.OrphanFolders?)
                  || (HonestRows(site, rows) && forall c | c in cmds :: Honest(site, c))
      {
        assert cmds[k] in cmds;
        Run(cmds[k], plan);
        k := k + 1;
      }
    }
  }

  /** The directories directly in p. */
  function Entries(d: Disk, p: Path): set<Path> {
    set q | q in d.dirs && Below(p, q) && |q| == |p| + 1
  }

  lemma EntryTowards(d: Disk, p: Path, q: Path)
    requires DiskOk(d) && q in d.dirs && Below(p, q) && p != q
    ensures exists e :: e in Entries(d, p) && Below(e, q)
  {
    var e := q[..|p| + 1];
    assert Below(e, q) && Below(p, e);
    assert e in Entries(d, p);
  }

  /** Nothing below apps/<kb>/<dir> is a leaf directory unless dir is "versions". */
  lemma NotUnderOther(site: Site, e: Path)
    requires |e| == |site.root| + 3 && e[|site.root| + 2] != "versions"
    ensures forall q | LeafDir(site, q) :: !Below(e, q)
  {
  }

  lemma SparedStay(site: Site, was: Disk, now: Disk, rows: Rows)
    requires Safe(site, was, rows) && AllSpared(site, rows) && OnlyUnder(Orphans(site, was, rows), was, now)
    ensures Safe(site, now, rows)
  {
    forall i, p | OwnedBy(site, rows, i, p) ensures p in now.whole {
      OrphanIff(site, was, rows, rows[i].ks.value);
    }
    LosingOthersIsSafe(site, was, now, rows);
  }

  lemma OtherIsSafe(site: Site, d: Disk, rows: Rows, id: nat, row: Row)
    requires Safe(site, d, rows) && id !in rows && row.ks.None?
    ensures Safe(site, d, rows[id := row])
  {
    var rows' := rows[id := row];
    forall i, p | OwnedBy(site, rows', i, p) ensures OwnedBy(site, rows, i, p) {
    }
  }

  lemma MoreSources(c: Catalog, id: nat, row: Row)
    requires NoDangling(c)
    ensures NoDangling(c.(sources := c.sources[id := row]))
  {
  }
}
