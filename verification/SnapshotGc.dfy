/** What `kb gc` selects and deletes: ranking, retention, cascades and repeated runs. */
module SnapshotGc {
  import opened Basics
  import opened LeafCodec
  import opened SnapshotStore

  // ---- ROW_NUMBER() OVER (PARTITION BY kb_id ORDER BY epoch DESC) ---------------------

  /** NULL kb_ids form one partition. */
  function Group(rows: Rows, kb: Option<string>): set<nat> {
    set i | i in rows && rows[i].kb == kb
  }

  ghost predicate InPartition(rows: Rows, rn: nat -> nat, i: nat)
    requires i in rows
  {
    1 <= rn(i) <= |Group(rows, rows[i].kb)|
  }

  ghost predicate Ordered(rows: Rows, rn: nat -> nat, i: nat, j: nat)
    requires i in rows && j in rows
  {
    i != j && rows[i].kb == rows[j].kb ==> rn(i) != rn(j) && (rows[i].epoch > rows[j].epoch ==> rn(i) < rn(j))
  }

  /** Any numbering the database may give; equal epochs go either way. */
  ghost predicate IsRowNumber(rows: Rows, rn: nat -> nat) {
    && (forall i | i in rows :: InPartition(rows, rn, i))
    && (forall i, j | i in rows && j in rows :: Ordered(rows, rn, i, j))
  }

  /** selectGCByCandidates. At least one of the two bounds is given by the command. */
  function Candidates(rows: Rows, rn: nat -> nat, cutoff: Option<int>, keep: Option<nat>): set<nat> {
    set i | i in rows && (cutoff.None? || rows[i].capturedAt < cutoff.value) && (keep.None? || rn(i) > keep.value)
  }

  function Top(rows: Rows, rn: nat -> nat, kb: Option<string>, n: nat): set<nat> {
    set i | i in rows && rows[i].kb == kb && rn(i) <= n
  }

  // ---- counting ------------------------------------------------------------------------

  /** Distinct numbers in lo + 1 .. hi: at most hi - lo of them. */
  lemma {:induction false} Pigeonhole(s: set<nat>, rn: nat -> nat, lo: nat, hi: nat)
    requires lo <= hi
    requires forall i | i in s :: lo < rn(i) <= hi
    requires forall i, j | i in s && j in s && i != j :: rn(i) != rn(j)
    ensures |s| <= hi - lo
    decreases hi - lo
  {
    if s == {} {
    } else if i :| i in s && rn(i) == hi {
      Pigeonhole(s - {i}, rn, lo, hi - 1);
    } else {
      Pigeonhole(s, rn, lo, hi - 1);
    }
  }

  /** g is numbered 1 .. |g|. */
  ghost predicate Numbers(g: set<nat>, rn: nat -> nat) {
    && (forall i | i in g :: 1 <= rn(i) <= |g|)
    && (forall i, j | i in g && j in g && i != j :: rn(i) != rn(j))
  }

  function UpTo(g: set<nat>, rn: nat -> nat, n: nat): set<nat> {
    set i | i in g && rn(i) <= n
  }

  lemma FirstN(g: set<nat>, rn: nat -> nat, n: nat)
    requires Numbers(g, rn)
    ensures |UpTo(g, rn, n)| == Min(n, |g|)
  {
    var top := UpTo(g, rn, n);
    if n < |g| {
      Pigeonhole(top, rn, 0, n);
      Pigeonhole(g - top, rn, n, |g|);
      assert |g| == |top| + |g - top|;
    } else {
      assert top == g;
    }
  }

  lemma GroupNumbers(rows: Rows, rn: nat -> nat, kb: Option<string>)
    requires IsRowNumber(rows, rn)
    ensures Numbers(Group(rows, kb), rn)
  {
    var g := Group(rows, kb);
    assert forall i | i in g :: InPartition(rows, rn, i);
    assert forall i, j | i in g && j in g :: Ordered(rows, rn, i, j);
  }

  /** The numbers of a partition are 1 .. its size, so the first n rows are min(n, size). */
  lemma TopCount(rows: Rows, rn: nat -> nat, kb: Option<string>, n: nat)
    requires IsRowNumber(rows, rn)
    ensures |Top(rows, rn, kb, n)| == Min(n, |Group(rows, kb)|)
  {
    var g := Group(rows, kb);
    GroupNumbers(rows, rn, kb);
    FirstN(g, rn, n);
    assert Top(rows, rn, kb, n) == UpTo(g, rn, n);
  }

  // ---- numberings as tie-breaks ----------------------------------------------------------

  /** The rows of i's partition that come before it when equal epochs are ordered by tie. */
  function Ahead(rows: Rows, tie: nat -> nat, i: nat): set<nat> {
    set j | j in rows && i in rows && rows[j].kb == rows[i].kb
            && (rows[j].epoch > rows[i].epoch || (rows[j].epoch == rows[i].epoch && tie(j) < tie(i)))
  }

  function Rank(rows: Rows, tie: nat -> nat, i: nat): nat {
    1 + |Ahead(rows, tie, i)|
  }

  function Ranking(rows: Rows, tie: nat -> nat): nat -> nat {
    i => Rank(rows, tie, i)
  }

  /** tie tells rows of equal epoch apart. */
  ghost predicate BreaksTies(rows: Rows, tie: nat -> nat) {
    forall i, j | i in rows && j in rows && rows[i].kb == rows[j].kb && rows[i].epoch == rows[j].epoch ::
      tie(i) == tie(j) ==> i == j
  }

  lemma AheadIsSmaller(rows: Rows, tie: nat -> nat, i: nat, j: nat)
    requires i in rows && i in Ahead(rows, tie, j)
    ensures Rank(rows, tie, i) < Rank(rows, tie, j)
  {
    SubsetSize(Ahead(rows, tie, i) + {i}, Ahead(rows, tie, j));
  }

  /** The numberings are the rankings by a tie-break: each ranking is one, ... */
  lemma RankingIsRowNumber(rows: Rows, tie: nat -> nat)
    requires BreaksTies(rows, tie)
    ensures IsRowNumber(rows, Ranking(rows, tie))
  {
    var rn := Ranking(rows, tie);
    forall i | i in rows ensures InPartition(rows, rn, i) {
      SubsetSize(Ahead(rows, tie, i) + {i}, Group(rows, rows[i].kb));
    }
    forall i, j | i in rows && j in rows ensures Ordered(rows, rn, i, j) {
      if i in Ahead(rows, tie, j) { AheadIsSmaller(rows, tie, i, j); }
      if j in Ahead(rows, tie, i) { AheadIsSmaller(rows, tie, j, i); }
    }
  }

  /** ... and each numbering is its own ranking. */
  lemma RowNumberIsRanking(rows: Rows, rn: nat -> nat, i: nat)
    requires IsRowNumber(rows, rn) && i in rows
    ensures BreaksTies(rows, rn) && Rank(rows, rn, i) == rn(i)
  {
    forall j, k | j in rows && k in rows && rows[j].kb == rows[k].kb && j != k ensures rn(j) != rn(k) {
      assert Ordered(rows, rn, j, k);
    }
    assert InPartition(rows, rn, i);
    forall j | j in rows && rows[j].kb == rows[i].kb && j != i
      ensures j in Ahead(rows, rn, i) <==> rn(j) <= rn(i)
    {
      assert Ordered(rows, rn, i, j) && Ordered(rows, rn, j, i);
    }
    assert Top(rows, rn, rows[i].kb, rn(i)) == Ahead(rows, rn, i) + {i};
    TopCount(rows, rn, rows[i].kb, rn(i));
  }

  // ---- retention -----------------------------------------------------------------------

  /** Whatever the cutoff, --keep-latest n leaves every app its min(n, count) highest epochs. */
  lemma KeepsLatest(rows: Rows, rn: nat -> nat, cutoff: Option<int>, n: nat, kb: Option<string>)
    requires IsRowNumber(rows, rn)
    ensures var gone := Candidates(rows, rn, cutoff, Some(n));
            && Top(rows, rn, kb, n) <= Group(rows - gone, kb)
            && |Top(rows, rn, kb, n)| == Min(n, |Group(rows, kb)|)
            && forall i, j | i in Top(rows, rn, kb, n) && j in Group(rows, kb) * gone ::
                 rows[i].epoch >= rows[j].epoch
  {
    TopCount(rows, rn, kb, n);
    forall i, j | i in Top(rows, rn, kb, n) && j in Group(rows, kb) && rn(j) > n
      ensures rows[i].epoch >= rows[j].epoch
    {
      assert Ordered(rows, rn, j, i);
    }
  }

  function RowsIn(rows: Rows, kb: Option<string>): (part: set<nat>)
    ensures forall i :: i in part <==> i in rows && rows[i].kb == kb
  {
    set i | i in rows && rows[i].kb == kb
  }

  /** top is, in every partition, n rows or all if there are fewer, and none outside it has a
      higher epoch. */
  ghost predicate HighestEpochs(rows: Rows, top: set<nat>, n: nat) {
    && (forall i | i in top :: i in rows)
    && (forall kb :: |RowsIn(rows, kb) * top| == Min(n, |RowsIn(rows, kb)|))
    && (forall i, j | i in top && i in rows && j in rows && j !in top && rows[i].kb == rows[j].kb ::
          rows[i].epoch >= rows[j].epoch)
  }

  /** now is was without the rows that are neither in top nor recent. */
  ghost predicate TopOrRecent(was: Rows, now: Rows, top: set<nat>, cutoff: Option<int>) {
    && (forall i | i in now :: i in was && now[i] == was[i])
    && (forall i | i in was :: i in now <==> i in top || (cutoff.Some? && was[i].capturedAt >= cutoff.value))
  }

  /** What an age selection leaves: the recent rows, and if a number to keep is given that many
      highest epochs of every partition. A bound that is not given keeps nothing. */
  ghost predicate LeftByAge(was: Rows, now: Rows, cutoff: Option<int>, keep: Option<nat>) {
    exists top :: HighestEpochs(was, top, if keep.Some? then keep.value else 0) && TopOrRecent(was, now, top, cutoff)
  }

  lemma FirstRanksAreHighest(rows: Rows, rn: nat -> nat, n: nat, top: set<nat>)
    requires IsRowNumber(rows, rn) && top == set i | i in rows && rn(i) <= n
    ensures HighestEpochs(rows, top, n)
  {
    forall kb ensures |RowsIn(rows, kb) * top| == Min(n, |RowsIn(rows, kb)|) {
      TopCount(rows, rn, kb, n);
      assert RowsIn(rows, kb) == Group(rows, kb);
      assert RowsIn(rows, kb) * top == Top(rows, rn, kb, n);
    }
    forall i, j | i in top && i in rows && j in rows && j !in top && rows[i].kb == rows[j].kb
      ensures rows[i].epoch >= rows[j].epoch
    {
      assert Ordered(rows, rn, j, i);
    }
  }

  /** What is left once the selected rows are gone, for either bound alone and for both. */
  lemma SelectionLeaves(rows: Rows, rn: nat -> nat, cutoff: Option<int>, keep: Option<nat>)
    requires IsRowNumber(rows, rn) && (cutoff.Some? || keep.Some?)
    ensures LeftByAge(rows, rows - Candidates(rows, rn, cutoff, keep), cutoff, keep)
  {
    var n := if keep.Some? then keep.value else 0;
    var top := set i | i in rows && rn(i) <= n;
    var now := rows - Candidates(rows, rn, cutoff, keep);
    FirstRanksAreHighest(rows, rn, n, top);
    forall i | i in rows ensures i in now <==> i in top || (cutoff.Some? && rows[i].capturedAt >= cutoff.value) {
      assert InPartition(rows, rn, i);
    }
    assert TopOrRecent(rows, now, top, cutoff);
  }

  /** Nothing captured at or after the cutoff is selected, nor any row of an app with no more
      than --keep-latest rows. */
  lemma NeverSelected(rows: Rows, rn: nat -> nat, cutoff: Option<int>, keep: Option<nat>, i: nat)
    requires IsRowNumber(rows, rn) && i in rows
    ensures cutoff.Some? && rows[i].capturedAt >= cutoff.value ==> i !in Candidates(rows, rn, cutoff, keep)
    ensures keep.Some? && |Group(rows, rows[i].kb)| <= keep.value ==> i !in Candidates(rows, rn, cutoff, keep)
  {
    assert InPartition(rows, rn, i);
  }

  // ---- a second run --------------------------------------------------------------------

  /** Rows of one partition with one epoch were captured in the same millisecond. The unique
      index leaves only rows without kb_id to check. */
  ghost predicate TiesAgree(rows: Rows) {
    forall i, j | i in rows && j in rows && rows[i].kb == rows[j].kb && rows[i].epoch == rows[j].epoch ::
      rows[i].capturedAt == rows[j].capturedAt
  }

  /** Run again with the same bounds, nothing is selected. */
  ghost predicate SecondRunIsEmpty(rows: Rows, rn: nat -> nat, rn': nat -> nat, cutoff: Option<int>, keep: Option<nat>)
  {
    var after := rows - Candidates(rows, rn, cutoff, keep);
    IsRowNumber(rows, rn) && IsRowNumber(after, rn') ==> Candidates(after, rn', cutoff, keep) == {}
  }

  /** What outranks an unselected row i the second time was within the first n before. */
  lemma WasKept(rows: Rows, rn: nat -> nat, gone: set<nat>, rn': nat -> nat,
                cutoff: Option<int>, n: nat, i: nat, j: nat)
    requires IsRowNumber(rows, rn) && gone == Candidates(rows, rn, cutoff, Some(n)) && IsRowNumber(rows - gone, rn')
    requires TiesAgree(rows) && i in Candidates(rows - gone, rn', cutoff, Some(n))
    requires j in rows - gone && rows[j].kb == rows[i].kb && rn'(j) <= rn'(i)
    ensures 1 <= rn(j) <= n
  {
    assert InPartition(rows, rn, j);
    assert Ordered(rows - gone, rn', i, j);
    assert Ordered(rows, rn, j, i);
  }

  lemma NotReselected(rows: Rows, rn: nat -> nat, gone: set<nat>, rn': nat -> nat,
                      cutoff: Option<int>, keep: Option<nat>, i: nat)
    requires IsRowNumber(rows, rn) && gone == Candidates(rows, rn, cutoff, keep) && IsRowNumber(rows - gone, rn')
    requires TiesAgree(rows) && i in rows - gone
    ensures i !in Candidates(rows - gone, rn', cutoff, keep)
  {
    var after := rows - gone;
    if i in Candidates(after, rn', cutoff, keep) {
      var n := keep.value;
      var ahead := Top(after, rn', rows[i].kb, rn'(i));
      assert InPartition(after, rn', i);
      TopCount(after, rn', rows[i].kb, rn'(i));
      forall j | j in ahead ensures 1 <= rn(j) <= n {
        WasKept(rows, rn, gone, rn', cutoff, n, i, j);
      }
      forall j, k | j in ahead && k in ahead && j != k ensures rn(j) != rn(k) {
        assert Ordered(rows, rn, j, k);
      }
      Pigeonhole(ahead, rn, 0, n);
    }
  }

  function FirstOfTies(a: nat): nat -> nat {
    i => if i == a then 0 else i + 1
  }

  ghost predicate Tied(rows: Rows, a: nat, b: nat) {
    && a in rows && b in rows && rows[a].kb == rows[b].kb && rows[a].epoch == rows[b].epoch
    && rows[a].capturedAt < rows[b].capturedAt
  }

  /** Number a first among equals, keep as many as its number says, and number b first the
      second time: all that was ahead of a still is, and b besides. */
  lemma FallsBehind(rows: Rows, a: nat, b: nat, gone: set<nat>)
    requires Tied(rows, a, b) && b !in gone && gone !! Ahead(rows, FirstOfTies(a), a)
    ensures a !in gone ==> Rank(rows, FirstOfTies(a), a) < Rank(rows - gone, FirstOfTies(b), a)
  {
    if a !in gone {
      var before := Ahead(rows, FirstOfTies(a), a);
      var after := Ahead(rows - gone, FirstOfTies(b), a);
      assert b !in before && b in after;
      assert before <= after;
      SubsetSize(before + {b}, after);
    }
  }

  lemma KeepsAhead(rows: Rows, tie: nat -> nat, cutoff: Option<int>, a: nat)
    requires a in rows
    ensures var gone := Candidates(rows, Ranking(rows, tie), cutoff, Some(Rank(rows, tie, a)));
            a !in gone && gone !! Ahead(rows, tie, a)
  {
    forall j | j in Ahead(rows, tie, a) ensures Rank(rows, tie, j) < Rank(rows, tie, a) {
      AheadIsSmaller(rows, tie, j, a);
    }
  }

  lemma SelectedLater(rows: Rows, a: nat, rn: nat -> nat, gone: set<nat>, rn': nat -> nat, cutoff: int)
    requires IsRowNumber(rows, rn) && gone == Candidates(rows, rn, Some(cutoff), Some(rn(a)))
    requires IsRowNumber(rows - gone, rn') && a in rows && rows[a].capturedAt < cutoff && rn(a) < rn'(a)
    ensures !SecondRunIsEmpty(rows, rn, rn', Some(cutoff), Some(rn(a)))
  {
    assert a in Candidates(rows - gone, rn', Some(cutoff), Some(rn(a)));
  }

  /** Two rows of one epoch with different stamps: some second run selects the older one. */
  lemma TiesAreReselected(rows: Rows, a: nat, b: nat)
    requires Tied(rows, a, b)
    ensures exists rn, rn', cutoff, keep :: !SecondRunIsEmpty(rows, rn, rn', cutoff, keep)
  {
    var first, second, cutoff := FirstOfTies(a), FirstOfTies(b), rows[b].capturedAt;
    var rn := Ranking(rows, first);
    var gone := Candidates(rows, rn, Some(cutoff), Some(rn(a)));
    KeepsAhead(rows, first, Some(cutoff), a);
    FallsBehind(rows, a, b, gone);
    RankingsAreNumberings(rows, gone, a, b);
    SelectedLater(rows, a, rn, gone, Ranking(rows - gone, second), cutoff);
  }

  lemma RankingsAreNumberings(rows: Rows, gone: set<nat>, a: nat, b: nat)
    ensures IsRowNumber(rows, Ranking(rows, FirstOfTies(a)))
    ensures IsRowNumber(rows - gone, Ranking(rows - gone, FirstOfTies(b)))
  {
    RankingIsRowNumber(rows, FirstOfTies(a));
    RankingIsRowNumber(rows - gone, FirstOfTies(b));
  }

  /** Whatever the bounds and however the database numbers ties, a second run selects nothing
      exactly when rows of equal rank in the ORDER BY agree on captured_at. */
  lemma SecondRunSelectsNothingIff(rows: Rows)
    ensures (forall rn, rn', cutoff, keep :: SecondRunIsEmpty(rows, rn, rn', cutoff, keep)) <==> TiesAgree(rows)
  {
    if TiesAgree(rows) {
      forall rn, rn', cutoff, keep ensures SecondRunIsEmpty(rows, rn, rn', cutoff, keep) {
        var gone := Candidates(rows, rn, cutoff, keep);
        if IsRowNumber(rows, rn) && IsRowNumber(rows - gone, rn') {
          forall i | i in rows - gone ensures i !in Candidates(rows - gone, rn', cutoff, keep) {
            NotReselected(rows, rn, gone, rn', cutoff, keep, i);
          }
        }
      }
    } else {
      var i, j :| i in rows && j in rows && Tied(rows, i, j);
      TiesAreReselected(rows, i, j);
    }
  }

  /** An app's own rows are never the exception. */
  lemma OnlyUnownedRowsTie(rows: Rows)
    requires UniqueEpochs(rows)
    ensures TiesAgree(rows) <==> forall i, j | i in Group(rows, None) && j in Group(rows, None) ::
              rows[i].epoch == rows[j].epoch ==> rows[i].capturedAt == rows[j].capturedAt
  {
    if forall i, j | i in Group(rows, None) && j in Group(rows, None) ::
         rows[i].epoch == rows[j].epoch ==> rows[i].capturedAt == rows[j].capturedAt
    {
      forall i, j | i in rows && j in rows && rows[i].kb == rows[j].kb && rows[i].epoch == rows[j].epoch
        ensures rows[i].capturedAt == rows[j].capturedAt
      {
        if rows[i].kb.None? { assert i in Group(rows, None) && j in Group(rows, None); }
      }
    }
  }

  /** The exception is real. */
  lemma TiesMayBeReselected(rows: Rows)
    requires rows == map[0 := Row(None, None, 7, 10), 1 := Row(None, None, 7, 99)]
    ensures UniqueEpochs(rows)
    ensures exists rn, rn', cutoff, keep :: !SecondRunIsEmpty(rows, rn, rn', cutoff, keep)
  {
    TiesAreReselected(rows, 0, 1);
  }

  // ---- the database stage --------------------------------------------------------------

  /** The tables with a foreign key to knowledge_sources. */
  datatype Table = ModuleAppRefs | FileAppRefs | KbDiffs | ModuleSightings | Modules | KbScorecards

  datatype Action = Cascade | SetNull | Restrict

  datatype Fk = Fk(table: Table, column: nat)

  function ActionOf(t: Table): Action {
    match t
    case ModuleAppRefs => Cascade
    case FileAppRefs => Cascade
    case KbDiffs => Cascade
    case ModuleSightings => SetNull
    case Modules => SetNull
    case KbScorecards => Restrict
  }

  /** kb_diffs has from and to, modules first and last. */
  function Columns(t: Table): nat {
    if t.KbDiffs? || t.Modules? then 2 else 1
  }

  /** A row of a referencing table; id, app and body are read for modules and their references. */
  datatype Child = Child(table: Table, keys: seq<Option<nat>>, id: nat, app: string, body: Option<string>)

  /** components: the module ids module_components holds. */
  datatype Catalog = Catalog(sources: Rows, children: seq<Child>, components: set<nat>)

  predicate PointsInto(r: Child, sources: Rows) {
    && |r.keys| == Columns(r.table)
    && forall k | k in r.keys && k.Some? :: k.value in sources
  }

  predicate IsModule(children: seq<Child>, m: nat) {
    exists r | r in children :: r.table.Modules? && r.id == m
  }

  /** Every foreign key is NULL or points at a row. */
  predicate NoDangling(c: Catalog) {
    && (forall r | r in c.children :: PointsInto(r, c.sources))
    && (forall m | m in c.components :: IsModule(c.children, m))
  }

  predicate Hit(k: Option<nat>, ids: set<nat>) {
    k.Some? && k.value in ids
  }

  predicate Refers(r: Child, ids: set<nat>) {
    exists k | k in r.keys :: Hit(k, ids)
  }

  datatype Effect = Gone | Blocked | Kept(row: Child)

  /** What one foreign key's trigger does to one row when the sources in ids are deleted. */
  function FireOnRow(fk: Fk, r: Child, ids: set<nat>): Effect {
    if r.table != fk.table || fk.column >= |r.keys| || !Hit(r.keys[fk.column], ids) then Kept(r)
    else match ActionOf(r.table)
      case Cascade => Gone
      case SetNull => Kept(r.(keys := r.keys[fk.column := None]))
      case Restrict => Blocked
  }

  /** What it does to all rows; None aborts the statement. */
  function Fire(fk: Fk, rows: seq<Child>, ids: set<nat>): Option<seq<Child>> {
    if rows == [] then Some([])
    else match Fire(fk, rows[1..], ids)
      case None => None
      case Some(rest) =>
        match FireOnRow(fk, rows[0], ids)
        case Gone => Some(rest)
        case Blocked => None
        case Kept(r) => Some([r] + rest)
  }

  /** The triggers run one after the other. */
  function FireAll(order: seq<Fk>, rows: seq<Child>, ids: set<nat>): Option<seq<Child>> {
    if order == [] then Some(rows)
    else match Fire(order[0], rows, ids)
      case None => None
      case Some(rest) => FireAll(order[1..], rest, ids)
  }

  /** Every foreign key has a trigger. */
  ghost predicate CoversSchema(order: seq<Fk>) {
    forall t: Table, c: nat | c < Columns(t) :: Fk(t, c) in order
  }

  /** The eight foreign keys there are. */
  lemma SchemaIs(order: seq<Fk>)
    ensures CoversSchema(order) <==>
              && Fk(ModuleAppRefs, 0) in order && Fk(FileAppRefs, 0) in order && Fk(KbScorecards, 0) in order
              && Fk(KbDiffs, 0) in order && Fk(KbDiffs, 1) in order && Fk(ModuleSightings, 0) in order
              && Fk(Modules, 0) in order && Fk(Modules, 1) in order
  {
  }

  predicate Referenced(children: seq<Child>, m: nat) {
    exists r, s | r in children && s in children ::
      && r.table.Modules? && r.id == m && r.body.Some?
      && s.table.ModuleAppRefs? && s.app == r.app && s.body == r.body
  }

  /** DELETE FROM knowledge_sources WHERE id = ANY(ids), its triggers firing in this order. */
  function DeleteSources(c: Catalog, ids: set<nat>, order: seq<Fk>): Option<Catalog> {
    match FireAll(order, c.children, ids)
    case None => None
    case Some(left) => Some(Catalog(c.sources - ids, left, c.components))
  }

  /** The module_components clean-up, the second statement. */
  function CleanUp(c: Catalog): Catalog {
    c.(components := set m | m in c.components && Referenced(c.children, m))
  }

  /** Both statements in one transaction. */
  function Purge(c: Catalog, ids: set<nat>, order: seq<Fk>): Option<Catalog> {
    match DeleteSources(c, ids, order)
    case None => None
    case Some(left) => Some(CleanUp(left))
  }

  // ---- one row at a time -------------------------------------------------------------------

  function NullHits(keys: seq<Option<nat>>, ids: set<nat>): (out: seq<Option<nat>>)
    ensures |out| == |keys|
    ensures forall c | 0 <= c < |keys| :: out[c] == if Hit(keys[c], ids) then None else keys[c]
  {
    seq(|keys|, c requires 0 <= c < |keys| => if Hit(keys[c], ids) then None else keys[c])
  }

  /** What becomes of a row, whatever the order of the triggers. */
  function Fate(r: Child, ids: set<nat>): Effect {
    if !Refers(r, ids) then Kept(r)
    else match ActionOf(r.table)
      case Cascade => Gone
      case SetNull => Kept(r.(keys := NullHits(r.keys, ids)))
      case Restrict => Blocked
  }

  /** The surviving rows in order. */
  function Survivors(rows: seq<Child>, ids: set<nat>): seq<Child> {
    if rows == [] then []
    else if Fate(rows[0], ids).Kept? then [Fate(rows[0], ids).row] + Survivors(rows[1..], ids)
    else Survivors(rows[1..], ids)
  }

  predicate SomeBlocked(rows: seq<Child>, ids: set<nat>) {
    exists r | r in rows :: Fate(r, ids).Blocked?
  }

  /** One row through all triggers. */
  function FireAllOnRow(order: seq<Fk>, r: Child, ids: set<nat>): Effect {
    if order == [] then Kept(r)
    else match FireOnRow(order[0], r, ids)
      case Gone => Gone
      case Blocked => Blocked
      case Kept(r') => FireAllOnRow(order[1..], r', ids)
  }

  function RowByRow(order: seq<Fk>, rows: seq<Child>, ids: set<nat>): Option<seq<Child>> {
    if rows == [] then Some([])
    else match RowByRow(order, rows[1..], ids)
      case None => None
      case Some(rest) =>
        match FireAllOnRow(order, rows[0], ids)
        case Gone => Some(rest)
        case Blocked => None
        case Kept(r) => Some([r] + rest)
  }

  lemma {:induction false} NoTriggers(rows: seq<Child>, ids: set<nat>)
    ensures RowByRow([], rows, ids) == Some(rows)
  {
    if rows == [] {
    } else {
      NoTriggers(rows[1..], ids);
      assert [rows[0]] + rows[1..] == rows;
    }
  }

  lemma {:induction false} OneTrigger(order: seq<Fk>, rows: seq<Child>, ids: set<nat>)
    requires order != []
    ensures RowByRow(order, rows, ids)
            == match Fire(order[0], rows, ids) { case None => None case Some(rest) => RowByRow(order[1..], rest, ids) }
  {
    if rows == [] {
    } else {
      OneTrigger(order, rows[1..], ids);
      match Fire(order[0], rows[1..], ids)
      case None =>
      case Some(rest) =>
        match FireOnRow(order[0], rows[0], ids)
        case Gone =>
        case Blocked =>
        case Kept(r) => assert ([r] + rest)[1..] == rest;
    }
  }

  /** Table by table or row by row, the same rows are left. */
  lemma {:induction false} TriggersByRow(order: seq<Fk>, rows: seq<Child>, ids: set<nat>)
    ensures FireAll(order, rows, ids) == RowByRow(order, rows, ids)
  {
    if order == [] {
      NoTriggers(rows, ids);
    } else {
      OneTrigger(order, rows, ids);
      match Fire(order[0], rows, ids)
      case None =>
      case Some(rest) => TriggersByRow(order[1..], rest, ids);
    }
  }

  /** Some key of r that one of these triggers guards points into ids. */
  predicate Guarded(order: seq<Fk>, r: Child, ids: set<nat>) {
    exists c | 0 <= c < |r.keys| :: Fk(r.table, c) in order && Hit(r.keys[c], ids)
  }

  lemma GuardedStep(order: seq<Fk>, r: Child, ids: set<nat>)
    requires order != [] && FireOnRow(order[0], r, ids) == Kept(r)
    ensures ActionOf(r.table).SetNull? || (Guarded(order, r, ids) <==> Guarded(order[1..], r, ids))
  {
    if !ActionOf(r.table).SetNull? && Guarded(order, r, ids) {
      var c :| 0 <= c < |r.keys| && Fk(r.table, c) in order && Hit(r.keys[c], ids);
      assert Fk(r.table, c) != order[0];
      assert Fk(r.table, c) in order[1..];
    }
  }

  lemma {:induction false} HardRow(order: seq<Fk>, r: Child, ids: set<nat>)
    requires !ActionOf(r.table).SetNull?
    ensures FireAllOnRow(order, r, ids)
            == if !Guarded(order, r, ids) then Kept(r) else if ActionOf(r.table).Cascade? then Gone else Blocked
  {
    if order == [] {
    } else if FireOnRow(order[0], r, ids) == Kept(r) {
      GuardedStep(order, r, ids);
      HardRow(order[1..], r, ids);
    } else {
      assert order[0] == Fk(r.table, order[0].column);
      assert order[0] in order;
    }
  }

  /** r and r' differ at most in guarded hits being NULL. */
  ghost predicate NulledBy(order: seq<Fk>, r: Child, ids: set<nat>, r': Child) {
    && r' == r.(keys := r'.keys) && |r'.keys| == |r.keys|
    && forall c | 0 <= c < |r.keys| ::
         r'.keys[c] == if Fk(r.table, c) in order && Hit(r.keys[c], ids) then None else r.keys[c]
  }

  lemma NulledStep(order: seq<Fk>, r: Child, ids: set<nat>, mid: Child, r': Child)
    requires order != [] && ActionOf(r.table).SetNull?
    requires FireOnRow(order[0], r, ids) == Kept(mid) && NulledBy(order[1..], mid, ids, r')
    ensures NulledBy(order, r, ids, r')
  {
    assert forall fk | fk in order :: fk == order[0] || fk in order[1..];
    assert mid.table == r.table && |mid.keys| == |r.keys|;
    forall c | 0 <= c < |r.keys|
      ensures r'.keys[c] == if Fk(r.table, c) in order && Hit(r.keys[c], ids) then None else r.keys[c]
    {
      assert Fk(r.table, c) in order <==> Fk(r.table, c) == order[0] || Fk(r.table, c) in order[1..];
    }
  }

  lemma {:induction false} SoftRow(order: seq<Fk>, r: Child, ids: set<nat>)
    requires ActionOf(r.table).SetNull?
    ensures FireAllOnRow(order, r, ids).Kept? && NulledBy(order, r, ids, FireAllOnRow(order, r, ids).row)
  {
    if order == [] {
    } else {
      var mid := FireOnRow(order[0], r, ids).row;
      SoftRow(order[1..], mid, ids);
      NulledStep(order, r, ids, mid, FireAllOnRow(order[1..], mid, ids).row);
    }
  }

  lemma RefersAt(r: Child, ids: set<nat>)
    ensures Refers(r, ids) <==> exists c | 0 <= c < |r.keys| :: Hit(r.keys[c], ids)
  {
    if Refers(r, ids) {
      var k :| k in r.keys && Hit(k, ids);
      var c :| 0 <= c < |r.keys| && r.keys[c] == k;
      assert Hit(r.keys[c], ids);
    }
    if c :| 0 <= c < |r.keys| && Hit(r.keys[c], ids) {
      assert r.keys[c] in r.keys;
    }
  }

  lemma RowFate(order: seq<Fk>, r: Child, ids: set<nat>)
    requires CoversSchema(order) && |r.keys| == Columns(r.table)
    ensures FireAllOnRow(order, r, ids) == Fate(r, ids)
  {
    RefersAt(r, ids);
    if ActionOf(r.table).SetNull? {
      SoftRow(order, r, ids);
      var r' := FireAllOnRow(order, r, ids).row;
      assert r'.keys == NullHits(r.keys, ids);
      if !Refers(r, ids) { assert r'.keys == r.keys; }
    } else {
      HardRow(order, r, ids);
      assert Guarded(order, r, ids) <==> Refers(r, ids);
    }
  }

  lemma BlockedFirstOrLater(rows: seq<Child>, ids: set<nat>)
    requires rows != []
    ensures SomeBlocked(rows, ids) <==> Fate(rows[0], ids).Blocked? || SomeBlocked(rows[1..], ids)
  {
    assert forall r | r in rows :: r == rows[0] || r in rows[1..];
    assert rows[0] in rows && forall r | r in rows[1..] :: r in rows;
  }

  lemma {:induction false} RowsFate(order: seq<Fk>, rows: seq<Child>, ids: set<nat>)
    requires CoversSchema(order) && forall r | r in rows :: |r.keys| == Columns(r.table)
    ensures RowByRow(order, rows, ids) == if SomeBlocked(rows, ids) then None else Some(Survivors(rows, ids))
  {
    if rows == [] {
    } else {
      assert rows[0] in rows && forall r | r in rows[1..] :: r in rows;
      RowFate(order, rows[0], ids);
      RowsFate(order, rows[1..], ids);
      BlockedFirstOrLater(rows, ids);
    }
  }

  lemma {:induction false} SurvivorsAre(rows: seq<Child>, ids: set<nat>)
    ensures forall r' :: r' in Survivors(rows, ids) <==> exists r | r in rows :: Fate(r, ids) == Kept(r')
  {
    if rows == [] {
    } else {
      SurvivorsAre(rows[1..], ids);
      assert forall r | r in rows :: r == rows[0] || r in rows[1..];
      assert rows[0] in rows && forall r | r in rows[1..] :: r in rows;
    }
  }

  lemma KeptPointsInto(r: Child, sources: Rows, ids: set<nat>)
    requires PointsInto(r, sources) && Fate(r, ids).Kept?
    ensures PointsInto(Fate(r, ids).row, sources - ids)
    ensures Fate(r, ids).row == r.(keys := Fate(r, ids).row.keys)
    ensures !Refers(Fate(r, ids).row, ids)
  {
    if Refers(r, ids) {
      var out := NullHits(r.keys, ids);
      forall k | k in out && k.Some? ensures k.value in sources && !Hit(k, ids) {
        var c :| 0 <= c < |out| && out[c] == k;
        assert r.keys[c] in r.keys;
      }
    } else {
      forall k | k in r.keys && k.Some? ensures k.value in sources - ids {
        assert !Hit(k, ids);
      }
    }
  }

  lemma ModulesStay(rows: seq<Child>, ids: set<nat>, m: nat)
    ensures IsModule(Survivors(rows, ids), m) <==> IsModule(rows, m)
  {
    SurvivorsAre(rows, ids);
    if IsModule(rows, m) {
      var r :| r in rows && r.table.Modules? && r.id == m;
      assert Fate(r, ids).row in Survivors(rows, ids);
    }
    if IsModule(Survivors(rows, ids), m) {
      var r' :| r' in Survivors(rows, ids) && r'.table.Modules? && r'.id == m;
      var r :| r in rows && Fate(r, ids) == Kept(r');
      assert r.table.Modules? && r.id == m;
    }
  }

  predicate KeepsKeys(t: Table) {
    t.Modules? || t.ModuleSightings?
  }

  /** What becomes of the rows, table by table: references and diffs of purged snapshots are gone,
      modules and sightings stay with NULL for a purged source, and whatever points at none of
      them is as it was. */
  ghost predicate RowsFollow(was: seq<Child>, now: seq<Child>, ids: set<nat>) {
    && (forall r | r in now && !KeepsKeys(r.table) :: r in was)
    && (forall r | r in was && KeepsKeys(r.table) :: exists r' :: r' in now && Nulled(r, r', ids))
    && (forall r' | r' in now && KeepsKeys(r'.table) :: exists r :: r in was && Nulled(r, r', ids))
  }

  predicate Nulled(r: Child, r': Child, ids: set<nat>) {
    && r' == r.(keys := r'.keys) && |r'.keys| == |r.keys|
    && forall c | 0 <= c < |r.keys| ::
         r'.keys[c] == if r.keys[c].Some? && r.keys[c].value in ids then None else r.keys[c]
  }

  lemma FateNulls(r: Child, ids: set<nat>)
    requires ActionOf(r.table).SetNull?
    ensures Fate(r, ids).Kept? && Nulled(r, Fate(r, ids).row, ids)
  {
    RefersAt(r, ids);
  }

  lemma HardRowsStay(was: seq<Child>, ids: set<nat>, r: Child)
    requires r in Survivors(was, ids) && !KeepsKeys(r.table)
    ensures r in was
  {
    SurvivorsAre(was, ids);
    var o :| o in was && Fate(o, ids) == Kept(r);
    if Refers(o, ids) && KeepsKeys(o.table) { FateNulls(o, ids); }
  }

  lemma SoftRowStays(was: seq<Child>, ids: set<nat>, r: Child)
    requires r in was && KeepsKeys(r.table)
    ensures exists r' :: r' in Survivors(was, ids) && Nulled(r, r', ids)
  {
    SurvivorsAre(was, ids);
    FateNulls(r, ids);
    assert Fate(r, ids).row in Survivors(was, ids);
  }

  lemma SoftRowCameFrom(was: seq<Child>, ids: set<nat>, r': Child)
    requires r' in Survivors(was, ids) && KeepsKeys(r'.table)
    ensures exists r :: r in was && Nulled(r, r', ids)
  {
    SurvivorsAre(was, ids);
    var r :| r in was && Fate(r, ids) == Kept(r');
    FateNulls(r, ids);
  }

  /** After the purge, whatever the order of the triggers. */
  lemma PurgedRowsFollow(c: Catalog, ids: set<nat>, order: seq<Fk>)
    requires NoDangling(c) && CoversSchema(order) && Purge(c, ids, order).Some?
    ensures RowsFollow(c.children, Purge(c, ids, order).value.children, ids)
  {
    var was, now := c.children, Survivors(c.children, ids);
    PurgeIsClean(c, ids, order);
    forall r | r in now && !KeepsKeys(r.table) ensures r in was { HardRowsStay(was, ids, r); }
    forall r | r in was && KeepsKeys(r.table) ensures exists r' :: r' in now && Nulled(r, r', ids) {
      SoftRowStays(was, ids, r);
    }
    forall r' | r' in now && KeepsKeys(r'.table) ensures exists r :: r in was && Nulled(r, r', ids) {
      SoftRowCameFrom(was, ids, r');
    }
  }

  /** The transaction goes through exactly when no candidate has a scorecard. Then, whatever the
      order the triggers fired in, nothing dangles, a row that refers to no purged snapshot is as
      it was, one that does is gone or has those keys NULL as its foreign keys say, and the
      classified modules are the ones still referenced. */
  lemma PurgeIsClean(c: Catalog, ids: set<nat>, order: seq<Fk>)
    requires NoDangling(c) && CoversSchema(order)
    ensures Purge(c, ids, order).Some? <==> forall r | r in c.children && r.table.KbScorecards? :: !Refers(r, ids)
    ensures Purge(c, ids, order).Some? ==>
              var after := Purge(c, ids, order).value;
              && NoDangling(after)
              && after.sources == c.sources - ids
              && after.children == Survivors(c.children, ids)
              && (forall r | r in c.children && !Refers(r, ids) :: r in after.children)
              && (forall r | r in after.children :: !Refers(r, ids))
              && (forall m :: m in after.components <==>
                    m in c.components && exists r, s | r in after.children && s in after.children ::
                      r.table.Modules? && r.id == m && r.body.Some?
                      && s.table.ModuleAppRefs? && s.app == r.app && s.body == r.body)
  {
    TriggersByRow(order, c.children, ids);
    assert forall r | r in c.children :: PointsInto(r, c.sources);
    RowsFate(order, c.children, ids);
    SurvivorsAre(c.children, ids);
    if Purge(c, ids, order).Some? {
      SurvivorsPointInto(c, ids);
      forall m | m in c.components ensures IsModule(Survivors(c.children, ids), m) {
        ModulesStay(c.children, ids, m);
      }
    }
  }

  lemma SurvivorsPointInto(c: Catalog, ids: set<nat>)
    requires NoDangling(c)
    ensures forall r | r in Survivors(c.children, ids) :: PointsInto(r, c.sources - ids) && !Refers(r, ids)
  {
    SurvivorsAre(c.children, ids);
    forall r' | r' in Survivors(c.children, ids) ensures PointsInto(r', c.sources - ids) && !Refers(r', ids) {
      var r :| r in c.children && Fate(r, ids) == Kept(r');
      KeptPointsInto(r, c.sources, ids);
    }
  }

  // ---- gc --empty-only -------------------------------------------------------------------

  predicate HasModules(children: seq<Child>, i: nat) {
    exists r | r in children :: r.table.ModuleAppRefs? && Some(i) in r.keys
  }

  /** Sources without a single module reference, in one app or all. */
  function EmptyOnes(c: Catalog, app: Option<string>): set<nat> {
    set i | i in c.sources && (app.None? || c.sources[i].kb == app) && !HasModules(c.children, i)
  }

  /** now is was without the rows in scope no module reference points at. */
  ghost predicate LeftByEmpty(was: Catalog, now: Rows, app: Option<string>) {
    && (forall i | i in now :: i in was.sources && now[i] == was.sources[i])
    && forall i | i in was.sources ::
         i in now <==> (app.Some? && was.sources[i].kb != app)
                       || exists r :: r in was.children && r.table.ModuleAppRefs? && Some(i) in r.keys
  }

  lemma EmptySelectionLeaves(c: Catalog, app: Option<string>)
    ensures LeftByEmpty(c, c.sources - EmptyOnes(c, app), app)
  {
  }

  /** Purging them leaves no empty snapshot in scope and takes no module reference. */
  lemma EmptyOnlyConverges(c: Catalog, app: Option<string>, order: seq<Fk>)
    requires NoDangling(c) && CoversSchema(order) && Purge(c, EmptyOnes(c, app), order).Some?
    ensures EmptyOnes(Purge(c, EmptyOnes(c, app), order).value, app) == {}
    ensures forall r | r in c.children && r.table.ModuleAppRefs? ::
              r in Purge(c, EmptyOnes(c, app), order).value.children
  {
    var ids := EmptyOnes(c, app);
    var after := Purge(c, ids, order).value;
    PurgeIsClean(c, ids, order);
    forall r | r in c.children && r.table.ModuleAppRefs? ensures !Refers(r, ids) {
      forall k | k in r.keys && k.Some? ensures !Hit(k, ids) {
        assert HasModules(c.children, k.value);
      }
    }
    forall i | i in after.sources && HasModules(c.children, i) ensures HasModules(after.children, i) {
      var r :| r in c.children && r.table.ModuleAppRefs? && Some(i) in r.keys;
      assert r in after.children;
    }
  }
}
