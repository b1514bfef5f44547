/** What a complete migration leaves, column by column: which source row every new row was copied
    from, which row wins a conflict, and what becomes of rows that were there before. Stated on
    source rows and columns alone. Parents are named by their unique key. */
module MigrationLanding {
  import opened Basics
  import opened Relational
  import opened MigrationModel
  import opened MigrationProofs

  // ---- INSERT ... ON CONFLICT DO NOTHING, row by row ------------------------------------

  /** The two rows conflict. */
  predicate SameKey(r: Row, s: Row, cols: seq<nat>) {
    Project(r, cols) == Project(s, cols)
  }

  /** Nothing in the table or before position j has this row's key. */
  predicate FirstOfKey(t: seq<Row>, rows: seq<Row>, j: nat, cols: seq<nat>)
    requires j < |rows|
  {
    && (forall r | r in t :: !SameKey(r, rows[j], cols))
    && (forall i | 0 <= i < j :: !SameKey(rows[i], rows[j], cols))
  }

  /** The first row of a key is stored, and so is every row with a NULL in its key. */
  lemma {:induction false} FirstIsStored(t: seq<Row>, rows: seq<Row>, j: nat, cols: seq<nat>)
    requires j < |rows| && (NullKey(rows[j], cols) || FirstOfKey(t, rows, j, cols))
    ensures rows[j] in InsertAll(t, rows, cols)
  {
    var n := |rows| - 1;
    var before := InsertAll(t, rows[..n], cols);
    if j == n {
      InsertAllCovers(t, rows[..n], cols);
      if !NullKey(rows[j], cols) {
        forall r | r in before ensures Project(r, cols) != Project(rows[j], cols) {
          if r !in t {
            var i :| 0 <= i < n && rows[..n][i] == r;
            assert !SameKey(rows[i], rows[j], cols);
          } else {
            assert !SameKey(r, rows[j], cols);
          }
        }
      }
      assert InsertAll(t, rows, cols) == before + [rows[n]];
    } else {
      assert forall i | 0 <= i < n :: rows[..n][i] == rows[i];
      FirstIsStored(t, rows[..n], j, cols);
    }
  }

  /** No row from position n on has the same values in these columns as one before it, NULL
      being unlike itself. */
  predicate NoDoubles(out: seq<Row>, n: nat, cols: set<nat>) {
    forall a, b | 0 <= a < b < |out| && n <= b :: Differ(out[a], out[b], cols)
  }

  predicate Differ(r: Row, s: Row, cols: set<nat>) {
    exists c | c in cols :: At(r, c) != At(s, c) || At(s, c) == V(Null)
  }

  lemma DifferIff(r: Row, s: Row, cols: seq<nat>)
    ensures Differ(r, s, set c | c in cols) <==> NullKey(s, cols) || !SameKey(r, s, cols)
  {
    if NullKey(s, cols) {
      var i :| 0 <= i < |cols| && Project(s, cols)[i] == V(Null);
      assert cols[i] in cols;
    }
    if !SameKey(r, s, cols) {
      var i :| 0 <= i < |cols| && Project(r, cols)[i] != Project(s, cols)[i];
      assert cols[i] in cols;
    }
    if c :| c in cols && (At(r, c) != At(s, c) || At(s, c) == V(Null)) {
      var i :| 0 <= i < |cols| && cols[i] == c;
      assert Project(s, cols)[i] == At(s, c) && Project(r, cols)[i] == At(r, c);
    }
  }

  lemma {:induction false} NewRowsDiffer(t: seq<Row>, rows: seq<Row>, cols: seq<nat>)
    ensures NoDoubles(InsertAll(t, rows, cols), |t|, set c | c in cols)
  {
    if rows == [] {
    } else {
      var n := |rows| - 1;
      var before := InsertAll(t, rows[..n], cols);
      NewRowsDiffer(t, rows[..n], cols);
      if InsertAll(t, rows, cols) == before + [rows[n]] {
        forall a | 0 <= a < |before| ensures Differ(before[a], rows[n], set c | c in cols) {
          assert before[a] in before;
          DifferIff(before[a], rows[n], cols);
        }
      }
    }
  }

  // ---- the columns -------------------------------------------------------------------------

  /** An integer column; a failed assertion reads as 0. */
  function IdIn(v: SrcRow, c: nat): int {
    match VAt(v, c)
    case Int(i) => i
    case _ => 0
  }

  function ModRows(src: Source): seq<SrcRow> {
    Scanned(src.mods)
  }

  function FactRows(src: Source): seq<SrcRow> {
    Scanned(src.facts)
  }

  function RowsOf(src: Source, t: Table): seq<SrcRow> {
    if t in src.kids then Scanned(src.kids[t]) else []
  }

  /** Row p is the last one with this old id. */
  predicate LastWithId(rows: seq<SrcRow>, id: int, p: int) {
    && 0 <= p < |rows| && IdIn(rows[p], 0) == id
    && forall q | p < q < |rows| :: IdIn(rows[q], 0) != id
  }

  predicate HasId(rows: seq<SrcRow>, id: int) {
    exists p | 0 <= p < |rows| :: IdIn(rows[p], 0) == id
  }

  /** (app, body_sha256) and (app, category, key) */
  function ModKey(v: SrcRow): Key {
    [VAt(v, 1), VAt(v, 7)]
  }

  function FactKey(v: SrcRow): Key {
    [VAt(v, 1), VAt(v, 2), VAt(v, 3)]
  }

  ghost predicate NamesModule(rows: seq<SrcRow>, id: int, c: Cell) {
    exists p :: LastWithId(rows, id, p) && c == ModRef(ModKey(rows[p]))
  }

  ghost predicate NamesFact(rows: seq<SrcRow>, id: int, c: Cell) {
    exists p :: LastWithId(rows, id, p) && c == FactRef(FactKey(rows[p]))
  }

  predicate UnderModule(t: Table) {
    t.Sightings? || t.Enrichment? || t.Deps? || t.Embeddings?
  }

  /** The number of columns the copy reads and writes. */
  function Width(t: Table): nat {
    match t
    case Bodies => 4
    case Sightings => 4
    case Enrichment => 11
    case Deps => 3
    case FactHistory => 6
    case Embeddings => 5
    case Repos => 7
  }

  /** The columns of the conflict target. */
  function Target(t: Table): set<nat> {
    match t
    case Sightings => {0, 1, 2}
    case Deps => {0, 1}
    case FactHistory => {0, 5}
    case _ => {0}
  }

  /** The row is copied at all: its parent, if it has one, is in the source. */
  predicate Copied(src: Source, t: Table, v: SrcRow) {
    && (UnderModule(t) ==> HasId(ModRows(src), IdIn(v, 0)))
    && (t.FactHistory? ==> HasId(FactRows(src), IdIn(v, 0)))
  }

  /** What column c of v's copy holds: the parent, for a dependency its target or NULL, and
      otherwise the source's value. */
  ghost predicate IsCopyOf(src: Source, t: Table, v: SrcRow, c: nat, cell: Cell) {
    if c == 0 && UnderModule(t) then NamesModule(ModRows(src), IdIn(v, 0), cell)
    else if c == 0 && t.FactHistory? then NamesFact(FactRows(src), IdIn(v, 0), cell)
    else if c == 2 && t.Deps? then
      if VAt(v, 2) != Null && HasId(ModRows(src), IdIn(v, 2)) then NamesModule(ModRows(src), IdIn(v, 2), cell)
      else cell == V(Null)
    else cell == V(VAt(v, c))
  }

  ghost predicate IsCopy(src: Source, t: Table, v: SrcRow, r: Row) {
    forall c | 0 <= c < Width(t) :: IsCopyOf(src, t, v, c, At(r, c))
  }

  /** r carries the conflict key v's copy has. */
  ghost predicate CarriesKey(src: Source, t: Table, v: SrcRow, r: Row) {
    forall c | c in Target(t) :: IsCopyOf(src, t, v, c, At(r, c))
  }

  /** v's copy has a NULL in its conflict key. */
  ghost predicate KeyIsNull(src: Source, t: Table, v: SrcRow) {
    exists c :: c in Target(t) && IsCopyOf(src, t, v, c, V(Null))
  }

  /** Neither the table before nor an earlier source row takes the key of row j. */
  ghost predicate Wins(src: Source, t: Table, before: seq<Row>, j: nat)
    requires j < |RowsOf(src, t)|
  {
    && (forall r | r in before :: !CarriesKey(src, t, RowsOf(src, t)[j], r))
    && (forall i, r | 0 <= i < j && Copied(src, t, RowsOf(src, t)[i]) && CarriesKey(src, t, RowsOf(src, t)[i], r) ::
          !CarriesKey(src, t, RowsOf(src, t)[j], r))
  }

  /** A table after a complete run: the old rows in place, behind them nothing but copies, for
      every copied source row one under its key, and the row's own copy if it wins the key. */
  ghost predicate Landed(src: Source, t: Table, before: seq<Row>, after: seq<Row>) {
    && before <= after
    && (forall r | r in after && r !in before ::
          exists v :: v in RowsOf(src, t) && Copied(src, t, v) && IsCopy(src, t, v, r))
    && (forall v | v in RowsOf(src, t) && Copied(src, t, v) :: exists r :: r in after && CarriesKey(src, t, v, r))
    && (forall j | 0 <= j < |RowsOf(src, t)| && Copied(src, t, RowsOf(src, t)[j])
                   && (KeyIsNull(src, t, RowsOf(src, t)[j]) || Wins(src, t, before, j)) ::
          exists r :: r in after && IsCopy(src, t, RowsOf(src, t)[j], r))
    && NoDoubles(after, |before|, Target(t))
  }

  // ---- the copy is what the run sends ---------------------------------------------------------

  ghost predicate LeadsTo(kind: EntKind, rows: seq<SrcRow>, id: int, c: Cell) {
    exists p :: LastWithId(rows, id, p) && c == RefCell(kind, EntKey(kind, rows[p]))
  }

  lemma LeadsLater(kind: EntKind, rows: seq<SrcRow>, v: SrcRow, id: int, c: Cell)
    requires LeadsTo(kind, rows, id, c) && IdIn(v, 0) != id
    ensures LeadsTo(kind, rows + [v], id, c)
  {
    var p :| LastWithId(rows, id, p) && c == RefCell(kind, EntKey(kind, rows[p]));
    assert LastWithId(rows + [v], id, p);
  }

  lemma LeadsLast(kind: EntKind, rows: seq<SrcRow>, v: SrcRow)
    ensures LeadsTo(kind, rows + [v], IdIn(v, 0), RefCell(kind, EntKey(kind, v)))
  {
    assert LastWithId(rows + [v], IdIn(v, 0), |rows|);
  }

  lemma HasIdSnoc(rows: seq<SrcRow>, v: SrcRow, id: int)
    ensures HasId(rows + [v], id) <==> HasId(rows, id) || IdIn(v, 0) == id
  {
    if HasId(rows, id) {
      var p :| 0 <= p < |rows| && IdIn(rows[p], 0) == id;
      assert (rows + [v])[p] == rows[p];
    }
    assert (rows + [v])[|rows|] == v;
  }

  lemma {:induction false} RefsLead(kind: EntKind, rows: seq<SrcRow>, id: int)
    ensures id in SrcRefs(kind, rows) <==> HasId(rows, id)
    ensures id in SrcRefs(kind, rows) ==> LeadsTo(kind, rows, id, SrcRefs(kind, rows)[id])
  {
    if rows == [] {
    } else {
      var before, v := rows[..|rows| - 1], rows[|rows| - 1];
      assert rows == before + [v];
      RefsLead(kind, before, id);
      HasIdSnoc(before, v, id);
      LeadsLast(kind, before, v);
      if IdIn(v, 0) != id && HasId(before, id) { LeadsLater(kind, before, v, id, SrcRefs(kind, before)[id]); }
    }
  }

  lemma KeysAreColumns(v: SrcRow)
    ensures EntKey(Modules, v) == ModKey(v) && EntKey(Facts, v) == FactKey(v)
  {
  }

  lemma LastIsUnique(rows: seq<SrcRow>, id: int, p: int, q: int)
    requires LastWithId(rows, id, p) && LastWithId(rows, id, q)
    ensures p == q
  {
  }

  /** The map of old ids gives exactly the parent meant. */
  lemma ModRefIs(rows: seq<SrcRow>, id: int, c: Cell)
    ensures var refs := SrcRefs(Modules, rows);
            && (id in refs <==> HasId(rows, id))
            && (NamesModule(rows, id, c) <==> id in refs && c == refs[id])
  {
    var refs := SrcRefs(Modules, rows);
    RefsLead(Modules, rows, id);
    if id in refs {
      var p :| LastWithId(rows, id, p) && refs[id] == RefCell(Modules, EntKey(Modules, rows[p]));
      KeysAreColumns(rows[p]);
      if NamesModule(rows, id, c) {
        var q :| LastWithId(rows, id, q) && c == ModRef(ModKey(rows[q]));
        LastIsUnique(rows, id, p, q);
      }
    }
  }

  lemma FactRefIs(rows: seq<SrcRow>, id: int, c: Cell)
    ensures var refs := SrcRefs(Facts, rows);
            && (id in refs <==> HasId(rows, id))
            && (NamesFact(rows, id, c) <==> id in refs && c == refs[id])
  {
    var refs := SrcRefs(Facts, rows);
    RefsLead(Facts, rows, id);
    if id in refs {
      var p :| LastWithId(rows, id, p) && refs[id] == RefCell(Facts, EntKey(Facts, rows[p]));
      KeysAreColumns(rows[p]);
      if NamesFact(rows, id, c) {
        var q :| LastWithId(rows, id, q) && c == FactRef(FactKey(rows[q]));
        LastIsUnique(rows, id, p, q);
      }
    }
  }

  /** The row the run sends for v. */
  function Sent(src: Source, t: Table, v: SrcRow): Option<Row> {
    Remap(t, v, ModRefs(src), FactRefs(src))
  }

  lemma SentIffCopied(src: Source, t: Table, v: SrcRow)
    ensures Sent(src, t, v).Some? <==> Copied(src, t, v)
  {
    ModRefIs(ModRows(src), IdIn(v, 0), V(Null));
    FactRefIs(FactRows(src), IdIn(v, 0), V(Null));
  }

  /** Column by column, what the run sends is the copy meant. */
  lemma ParentIsCopy(src: Source, t: Table, v: SrcRow, cell: Cell)
    requires Copied(src, t, v)
    ensures Sent(src, t, v).Some?
    ensures IsCopyOf(src, t, v, 0, cell) <==> cell == At(Sent(src, t, v).value, 0)
  {
    SentIffCopied(src, t, v);
    ModRefIs(ModRows(src), IdIn(v, 0), cell);
    FactRefIs(FactRows(src), IdIn(v, 0), cell);
  }

  lemma DepTargetIsCopy(src: Source, v: SrcRow, cell: Cell)
    requires Copied(src, Deps, v)
    ensures Sent(src, Deps, v).Some?
    ensures IsCopyOf(src, Deps, v, 2, cell) <==> cell == At(Sent(src, Deps, v).value, 2)
  {
    SentIffCopied(src, Deps, v);
    ModRefIs(ModRows(src), IdIn(v, 2), cell);
  }

  lemma PlainIsCopy(src: Source, t: Table, v: SrcRow, c: nat)
    requires Sent(src, t, v).Some? && c < Width(t) && !(c == 0 && (UnderModule(t) || t.FactHistory?))
    requires !(c == 2 && t.Deps?)
    ensures At(Sent(src, t, v).value, c) == V(VAt(v, c))
  {
  }

  lemma CellIsCopy(src: Source, t: Table, v: SrcRow, c: nat, cell: Cell)
    requires Copied(src, t, v) && c < Width(t)
    ensures Sent(src, t, v).Some?
    ensures IsCopyOf(src, t, v, c, cell) <==> cell == At(Sent(src, t, v).value, c)
  {
    SentIffCopied(src, t, v);
    if c == 0 && (UnderModule(t) || t.FactHistory?) {
      ParentIsCopy(src, t, v, cell);
    } else if c == 2 && t.Deps? {
      DepTargetIsCopy(src, v, cell);
    } else {
      PlainIsCopy(src, t, v, c);
    }
  }

  lemma TargetIsKey(t: Table)
    ensures forall c: nat :: c in Target(t) <==> c in KeyCols(t)
    ensures (set c | c in KeyCols(t)) == Target(t)
    ensures forall c | c in Target(t) :: c < Width(t)
  {
  }

  lemma SentIsCopy(src: Source, t: Table, v: SrcRow, r: Row)
    requires Copied(src, t, v)
    ensures Sent(src, t, v).Some?
    ensures IsCopy(src, t, v, r) <==> forall c | 0 <= c < Width(t) :: At(r, c) == At(Sent(src, t, v).value, c)
    ensures CarriesKey(src, t, v, r) <==> SameKey(r, Sent(src, t, v).value, KeyCols(t))
  {
    SentIffCopied(src, t, v);
    var w := Sent(src, t, v).value;
    forall c: nat | c < Width(t) ensures IsCopyOf(src, t, v, c, At(r, c)) <==> At(r, c) == At(w, c) {
      CellIsCopy(src, t, v, c, At(r, c));
    }
    TargetIsKey(t);
    SameKeyIff(r, w, KeyCols(t));
  }

  lemma SameKeyIff(r: Row, s: Row, cols: seq<nat>)
    ensures SameKey(r, s, cols) <==> forall c | c in cols :: At(r, c) == At(s, c)
  {
    if forall c | c in cols :: At(r, c) == At(s, c) {
      forall i | 0 <= i < |cols| ensures Project(r, cols)[i] == Project(s, cols)[i] {
        assert cols[i] in cols;
      }
    } else {
      var c :| c in cols && At(r, c) != At(s, c);
      var i :| 0 <= i < |cols| && cols[i] == c;
      assert Project(r, cols)[i] != Project(s, cols)[i];
    }
  }

  lemma KeyIsNullIff(src: Source, t: Table, v: SrcRow)
    requires Copied(src, t, v)
    ensures Sent(src, t, v).Some?
    ensures KeyIsNull(src, t, v) ==> NullKey(Sent(src, t, v).value, KeyCols(t))
  {
    SentIffCopied(src, t, v);
    TargetIsKey(t);
    if KeyIsNull(src, t, v) {
      var c :| c in Target(t) && IsCopyOf(src, t, v, c, V(Null));
      CellIsCopy(src, t, v, c, V(Null));
      var i :| 0 <= i < |KeyCols(t)| && KeyCols(t)[i] == c;
      assert Project(Sent(src, t, v).value, KeyCols(t))[i] == V(Null);
    }
  }

  /** Where row j's copy stands among the rows sent. */
  lemma {:induction false} OpAt(t: Table, rows: seq<SrcRow>, mods: map<int, Cell>, facts: map<int, Cell>, j: nat)
    requires j < |rows| && Remap(t, rows[j], mods, facts).Some?
    ensures var k := |Ops(t, rows[..j], mods, facts)|;
            && k < |Ops(t, rows, mods, facts)|
            && Ops(t, rows, mods, facts)[k] == Remap(t, rows[j], mods, facts).value
            && Ops(t, rows, mods, facts)[..k] == Ops(t, rows[..j], mods, facts)
  {
    var n := |rows| - 1;
    if j == n {
    } else {
      OpAt(t, rows[..n], mods, facts, j);
      assert rows[..n][..j] == rows[..j];
    }
  }

  // ---- a complete run -----------------------------------------------------------------------------

  /** The rows a complete run sends. */
  function AllSent(src: Source, t: Table): seq<Row> {
    Ops(t, RowsOf(src, t), ModRefs(src), FactRefs(src))
  }

  lemma SentComesFrom(src: Source, t: Table, part: seq<SrcRow>, r: Row)
    requires r in Ops(t, part, ModRefs(src), FactRefs(src))
    ensures exists i :: 0 <= i < |part| && Copied(src, t, part[i]) && Sent(src, t, part[i]) == Some(r)
  {
    OpsAreRemaps(t, part, ModRefs(src), FactRefs(src));
    var v :| v in part && Remap(t, v, ModRefs(src), FactRefs(src)) == Some(r);
    var i :| 0 <= i < |part| && part[i] == v;
    SentIffCopied(src, t, v);
  }

  lemma NewRowsAreCopies(src: Source, t: Table, before: seq<Row>, r: Row)
    requires r in InsertAll(before, AllSent(src, t), KeyCols(t)) && r !in before
    ensures exists v :: v in RowsOf(src, t) && Copied(src, t, v) && IsCopy(src, t, v, r)
  {
    InsertAllCovers(before, AllSent(src, t), KeyCols(t));
    SentComesFrom(src, t, RowsOf(src, t), r);
    var rows := RowsOf(src, t);
    var i :| 0 <= i < |rows| && Copied(src, t, rows[i]) && Sent(src, t, rows[i]) == Some(r);
    SentIsCopy(src, t, rows[i], r);
    assert rows[i] in rows;
  }

  lemma EveryKeyIsThere(src: Source, t: Table, before: seq<Row>, v: SrcRow)
    requires v in RowsOf(src, t) && Copied(src, t, v)
    ensures exists r :: r in InsertAll(before, AllSent(src, t), KeyCols(t)) && CarriesKey(src, t, v, r)
  {
    SentIffCopied(src, t, v);
    OpsAreRemaps(t, RowsOf(src, t), ModRefs(src), FactRefs(src));
    InsertAllCovers(before, AllSent(src, t), KeyCols(t));
    var w := Sent(src, t, v).value;
    var r :| r in InsertAll(before, AllSent(src, t), KeyCols(t)) && Project(r, KeyCols(t)) == Project(w, KeyCols(t));
    SentIsCopy(src, t, v, r);
  }

  lemma WinsIsFirst(src: Source, t: Table, before: seq<Row>, j: nat, k: nat)
    requires j < |RowsOf(src, t)| && Copied(src, t, RowsOf(src, t)[j]) && Wins(src, t, before, j)
    requires k < |AllSent(src, t)| && Some(AllSent(src, t)[k]) == Sent(src, t, RowsOf(src, t)[j])
    requires AllSent(src, t)[..k] == Ops(t, RowsOf(src, t)[..j], ModRefs(src), FactRefs(src))
    ensures FirstOfKey(before, AllSent(src, t), k, KeyCols(t))
  {
    var rows, sent := RowsOf(src, t), AllSent(src, t);
    forall r | r in before ensures !SameKey(r, sent[k], KeyCols(t)) {
      SentIsCopy(src, t, rows[j], r);
    }
    forall i | 0 <= i < k ensures !SameKey(sent[i], sent[k], KeyCols(t)) {
      assert sent[i] == sent[..k][i];
      SentComesFrom(src, t, rows[..j], sent[i]);
      var e :| 0 <= e < j && Copied(src, t, rows[..j][e]) && Sent(src, t, rows[..j][e]) == Some(sent[i]);
      assert rows[..j][e] == rows[e];
      SentIsCopy(src, t, rows[e], sent[i]);
      SentIsCopy(src, t, rows[j], sent[i]);
    }
  }

  lemma WinnerIsThere(src: Source, t: Table, before: seq<Row>, j: nat)
    requires j < |RowsOf(src, t)| && Copied(src, t, RowsOf(src, t)[j])
    requires KeyIsNull(src, t, RowsOf(src, t)[j]) || Wins(src, t, before, j)
    ensures exists r :: r in InsertAll(before, AllSent(src, t), KeyCols(t)) && IsCopy(src, t, RowsOf(src, t)[j], r)
  {
    var rows, sent := RowsOf(src, t), AllSent(src, t);
    SentIffCopied(src, t, rows[j]);
    OpAt(t, rows, ModRefs(src), FactRefs(src), j);
    var k := |Ops(t, rows[..j], ModRefs(src), FactRefs(src))|;
    if KeyIsNull(src, t, rows[j]) {
      KeyIsNullIff(src, t, rows[j]);
    } else {
      WinsIsFirst(src, t, before, j, k);
    }
    FirstIsStored(before, sent, k, KeyCols(t));
    SentIsCopy(src, t, rows[j], sent[k]);
  }

  lemma InsertAllLands(src: Source, t: Table, before: seq<Row>)
    ensures Landed(src, t, before, InsertAll(before, AllSent(src, t), KeyCols(t)))
  {
    var after := InsertAll(before, AllSent(src, t), KeyCols(t));
    forall r | r in after && r !in before
      ensures exists v :: v in RowsOf(src, t) && Copied(src, t, v) && IsCopy(src, t, v, r)
    {
      NewRowsAreCopies(src, t, before, r);
    }
    forall v | v in RowsOf(src, t) && Copied(src, t, v) ensures exists r :: r in after && CarriesKey(src, t, v, r) {
      EveryKeyIsThere(src, t, before, v);
    }
    forall j | 0 <= j < |RowsOf(src, t)| && Copied(src, t, RowsOf(src, t)[j])
               && (KeyIsNull(src, t, RowsOf(src, t)[j]) || Wins(src, t, before, j))
      ensures exists r :: r in after && IsCopy(src, t, RowsOf(src, t)[j], r)
    {
      WinnerIsThere(src, t, before, j);
    }
    TargetIsKey(t);
    NewRowsDiffer(before, AllSent(src, t), KeyCols(t));
  }

  // ---- modules and app_facts -------------------------------------------------------------------------

  /** Column c of the source is where a new row's column says. */
  ghost predicate IsModuleOf(v: SrcRow, e: Ent) {
    && e.key == ModKey(v) && |e.cols| == 13
    && (forall c | 1 <= c <= 11 :: e.cols[c - 1] == VAt(v, c))
    && e.cols[11] == VAt(v, 13) && e.cols[12] == VAt(v, 14)
  }

  ghost predicate IsFactOf(v: SrcRow, e: Ent) {
    && e.key == FactKey(v) && |e.cols| == 12
    && forall c | 1 <= c <= 12 :: e.cols[c - 1] == VAt(v, c)
  }

  /** Row j is the first, or the last, with its key. */
  predicate FirstModule(rows: seq<SrcRow>, j: int) {
    0 <= j < |rows| && forall i | 0 <= i < j :: ModKey(rows[i]) != ModKey(rows[j])
  }

  predicate LastModule(rows: seq<SrcRow>, j: int) {
    0 <= j < |rows| && forall i | j < i < |rows| :: ModKey(rows[i]) != ModKey(rows[j])
  }

  predicate FirstFact(rows: seq<SrcRow>, j: int) {
    0 <= j < |rows| && forall i | 0 <= i < j :: FactKey(rows[i]) != FactKey(rows[j])
  }

  /** No key lost, none invented, each source row's key there. */
  ghost predicate KeysLanded(keys: seq<Key>, before: Named, after: Named) {
    && (forall k | k in before :: k in after)
    && (forall k | k in after :: k in before || k in keys)
    && (forall k | k in keys :: k in after)
  }

  /** What was there keeps all but last_seen_at, and that too if no source row has its key. */
  ghost predicate OldModulesKept(rows: seq<SrcRow>, before: Named, after: Named) {
    forall k | k in before ::
      && k in after && after[k].(stamp := before[k].stamp) == before[k]
      && (k in ModKeys(rows) || after[k] == before[k])
  }

  /** A new row is copied from the first source row of its key. */
  ghost predicate NewModulesCopied(rows: seq<SrcRow>, before: Named, after: Named) {
    forall j | FirstModule(rows, j) && ModKey(rows[j]) !in before ::
      ModKey(rows[j]) in after && IsModuleOf(rows[j], after[ModKey(rows[j])])
  }

  /** last_seen_at comes from the last source row of the key. */
  ghost predicate ModulesStamped(rows: seq<SrcRow>, after: Named) {
    forall j | LastModule(rows, j) :: ModKey(rows[j]) in after && after[ModKey(rows[j])].stamp == VAt(rows[j], 12)
  }

  function ModKeys(rows: seq<SrcRow>): (keys: seq<Key>)
    ensures |keys| == |rows| && forall i | 0 <= i < |rows| :: keys[i] == ModKey(rows[i])
  {
    seq(|rows|, i requires 0 <= i < |rows| => ModKey(rows[i]))
  }

  function FactKeys(rows: seq<SrcRow>): (keys: seq<Key>)
    ensures |keys| == |rows| && forall i | 0 <= i < |rows| :: keys[i] == FactKey(rows[i])
  {
    seq(|rows|, i requires 0 <= i < |rows| => FactKey(rows[i]))
  }

  /** modules after a complete run. */
  ghost predicate ModulesLanded(rows: seq<SrcRow>, before: Named, after: Named) {
    && KeysLanded(ModKeys(rows), before, after) && OldModulesKept(rows, before, after)
    && NewModulesCopied(rows, before, after) && ModulesStamped(rows, after)
  }

  ghost predicate NewFactsCopied(rows: seq<SrcRow>, before: Named, after: Named) {
    forall j | FirstFact(rows, j) && FactKey(rows[j]) !in before ::
      FactKey(rows[j]) in after && IsFactOf(rows[j], after[FactKey(rows[j])])
  }

  /** app_facts: what was there stays as it is, a new row is the first source row of its key. */
  ghost predicate FactsLanded(rows: seq<SrcRow>, before: Named, after: Named) {
    && KeysLanded(FactKeys(rows), before, after) && (forall k | k in before :: after[k] == before[k])
    && NewFactsCopied(rows, before, after)
  }

  lemma NewModuleIs(v: SrcRow)
    ensures IsModuleOf(v, NewEnt(Modules, v)) && NewEnt(Modules, v).stamp == VAt(v, 12)
    ensures IsFactOf(v, NewEnt(Facts, v))
  {
  }

  /** after is m with something put under k. */
  ghost predicate PutAt(m: Named, k: Key, after: Named) {
    after.Keys == m.Keys + {k} && forall o | o in m && o != k :: after[o] == m[o]
  }

  ghost predicate ModulePut(m: Named, v: SrcRow, after: Named) {
    var k := ModKey(v);
    && PutAt(m, k, after) && after[k].stamp == VAt(v, 12)
    && if k in m then after[k].(stamp := m[k].stamp) == m[k] else IsModuleOf(v, after[k])
  }

  ghost predicate FactPut(m: Named, v: SrcRow, after: Named) {
    var k := FactKey(v);
    PutAt(m, k, after) && if k in m then after[k] == m[k] else IsFactOf(v, after[k])
  }

  lemma PutIs(m: Named, v: SrcRow)
    ensures ModulePut(m, v, NamedPut(Modules, m, v))
    ensures FactPut(m, v, NamedPut(Facts, m, v))
  {
    KeysAreColumns(v);
    NewModuleIs(v);
  }

  lemma KeysLandOn(keys: seq<Key>, m: Named, mid: Named, k: Key, after: Named)
    requires KeysLanded(keys, m, mid) && PutAt(mid, k, after)
    ensures KeysLanded(keys + [k], m, after)
  {
  }

  lemma OldModulesOn(rows: seq<SrcRow>, m: Named, mid: Named, v: SrcRow, after: Named)
    requires OldModulesKept(rows, m, mid) && ModulePut(mid, v, after)
    ensures OldModulesKept(rows + [v], m, after)
  {
    assert ModKeys(rows + [v]) == ModKeys(rows) + [ModKey(v)];
  }

  /** The first row of its key among all: an earlier row, or the newest with a new key. */
  lemma FirstModuleOf(rows: seq<SrcRow>, v: SrcRow, j: int)
    requires FirstModule(rows + [v], j)
    ensures if j < |rows| then FirstModule(rows, j) else ModKey(v) !in ModKeys(rows)
  {
    assert forall i | 0 <= i < |rows| :: (rows + [v])[i] == rows[i];
    if j >= |rows| {
      forall i | 0 <= i < |rows| ensures ModKeys(rows)[i] != ModKey(v) {
        assert ModKey((rows + [v])[i]) != ModKey((rows + [v])[j]);
      }
    }
  }

  lemma FirstFactOf(rows: seq<SrcRow>, v: SrcRow, j: int)
    requires FirstFact(rows + [v], j)
    ensures if j < |rows| then FirstFact(rows, j) else FactKey(v) !in FactKeys(rows)
  {
    assert forall i | 0 <= i < |rows| :: (rows + [v])[i] == rows[i];
    if j >= |rows| {
      forall i | 0 <= i < |rows| ensures FactKeys(rows)[i] != FactKey(v) {
        assert FactKey((rows + [v])[i]) != FactKey((rows + [v])[j]);
      }
    }
  }

  lemma LastModuleOf(rows: seq<SrcRow>, v: SrcRow, j: int)
    requires LastModule(rows + [v], j) && j < |rows|
    ensures LastModule(rows, j) && ModKey(rows[j]) != ModKey(v)
  {
    assert (rows + [v])[|rows|] == v && (rows + [v])[j] == rows[j];
    forall i | j < i < |rows| ensures ModKey(rows[i]) != ModKey(rows[j]) {
      assert (rows + [v])[i] == rows[i];
    }
  }

  lemma NewModulesOn(rows: seq<SrcRow>, m: Named, mid: Named, v: SrcRow, after: Named)
    requires KeysLanded(ModKeys(rows), m, mid) && NewModulesCopied(rows, m, mid) && ModulePut(mid, v, after)
    ensures NewModulesCopied(rows + [v], m, after)
  {
    var all := rows + [v];
    forall j | FirstModule(all, j) && ModKey(all[j]) !in m
      ensures ModKey(all[j]) in after && IsModuleOf(all[j], after[ModKey(all[j])])
    {
      FirstModuleOf(rows, v, j);
      if j < |rows| {
        assert all[j] == rows[j];
      } else {
        assert all[j] == v;
      }
    }
  }

  lemma StampedOn(rows: seq<SrcRow>, mid: Named, v: SrcRow, after: Named)
    requires ModulesStamped(rows, mid) && ModulePut(mid, v, after)
    ensures ModulesStamped(rows + [v], after)
  {
    var all := rows + [v];
    forall j | LastModule(all, j) ensures ModKey(all[j]) in after && after[ModKey(all[j])].stamp == VAt(all[j], 12) {
      if j < |rows| {
        LastModuleOf(rows, v, j);
        assert all[j] == rows[j];
      }
    }
  }

  /** One source row more. */
  lemma ModulesLandOn(all: seq<SrcRow>, m: Named, mid: Named, after: Named)
    requires all != []
    requires ModulesLanded(all[..|all| - 1], m, mid) && ModulePut(mid, all[|all| - 1], after)
    ensures ModulesLanded(all, m, after)
  {
    var rows, v := all[..|all| - 1], all[|all| - 1];
    assert all == rows + [v];
    assert ModKeys(rows + [v]) == ModKeys(rows) + [ModKey(v)];
    KeysLandOn(ModKeys(rows), m, mid, ModKey(v), after);
    OldModulesOn(rows, m, mid, v, after);
    NewModulesOn(rows, m, mid, v, after);
    StampedOn(rows, mid, v, after);
  }

  lemma {:induction false} ModulesLand(m: Named, rows: seq<SrcRow>)
    ensures ModulesLanded(rows, m, NamedAll(Modules, m, rows))
  {
    if rows == [] {
    } else {
      var n := |rows| - 1;
      ModulesLand(m, rows[..n]);
      PutIs(NamedAll(Modules, m, rows[..n]), rows[n]);
      ModulesLandOn(rows, m, NamedAll(Modules, m, rows[..n]), NamedAll(Modules, m, rows));
    }
  }

  lemma NewFactsOn(rows: seq<SrcRow>, m: Named, mid: Named, v: SrcRow, after: Named)
    requires KeysLanded(FactKeys(rows), m, mid) && NewFactsCopied(rows, m, mid) && FactPut(mid, v, after)
    ensures NewFactsCopied(rows + [v], m, after)
  {
    var all := rows + [v];
    forall j | FirstFact(all, j) && FactKey(all[j]) !in m
      ensures FactKey(all[j]) in after && IsFactOf(all[j], after[FactKey(all[j])])
    {
      FirstFactOf(rows, v, j);
      if j < |rows| {
        assert all[j] == rows[j];
      } else {
        assert all[j] == v;
      }
    }
  }

  /** One source row more. */
  lemma FactsLandOn(all: seq<SrcRow>, m: Named, mid: Named, after: Named)
    requires all != []
    requires FactsLanded(all[..|all| - 1], m, mid) && FactPut(mid, all[|all| - 1], after)
    ensures FactsLanded(all, m, after)
  {
    var rows, v := all[..|all| - 1], all[|all| - 1];
    assert all == rows + [v];
    assert FactKeys(rows + [v]) == FactKeys(rows) + [FactKey(v)];
    KeysLandOn(FactKeys(rows), m, mid, FactKey(v), after);
    NewFactsOn(rows, m, mid, v, after);
  }

  lemma {:induction false} FactsLand(m: Named, rows: seq<SrcRow>)
    ensures FactsLanded(rows, m, NamedAll(Facts, m, rows))
  {
    if rows == [] {
    } else {
      var n := |rows| - 1;
      FactsLand(m, rows[..n]);
      PutIs(NamedAll(Facts, m, rows[..n]), rows[n]);
      FactsLandOn(rows, m, NamedAll(Facts, m, rows[..n]), NamedAll(Facts, m, rows));
    }
  }

  // ---- the whole catalog ------------------------------------------------------------------------------

  /** What a migration that gets through leaves of a catalog. */
  ghost predicate Migrated(src: Source, before: Db, after: Db) {
    && WF(before) && WF(after)
    && ModulesLanded(ModRows(src), View(before).mods, View(after).mods)
    && FactsLanded(FactRows(src), View(before).facts, View(after).facts)
    && forall t: Table :: Landed(src, t, View(before).kids[t], View(after).kids[t])
  }

  lemma CompleteIsAllSent(src: Source, t: Table, before: seq<Row>)
    ensures KidAfter(before, KidRows(src, t), t, STAGES, 0, ModRefs(src), FactRefs(src))
            == InsertAll(before, AllSent(src, t), KeyCols(t))
  {
    assert AllSent(src, t)[..|AllSent(src, t)|] == AllSent(src, t);
  }

  /** The nine stages together: after a complete run every table holds, column by column, what
      the source's rows say. */
  lemma CompleteMigrates(db: Db, src: Source)
    requires WF(db)
    ensures Migrated(src, db, Complete(db, src))
  {
    CompleteNamed(db, src);
    ModulesLand(View(db).mods, ModRows(src));
    FactsLand(View(db).facts, FactRows(src));
    forall t: Table ensures Landed(src, t, View(db).kids[t], View(Complete(db, src)).kids[t]) {
      CompleteKid(db, src, t);
      CompleteIsAllSent(src, t, View(db).kids[t]);
      InsertAllLands(src, t, View(db).kids[t]);
    }
  }
}
