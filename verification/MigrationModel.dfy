/** What `db migrate-from-sqlite` does to the Postgres catalog, as functions: the scan and
    its sanitising, the two id-generating tables, the remapped child tables, and a run
    killed at any row. MigrationRuntime has the imperative code, MigrationProofs the theorems. */
module MigrationModel {
  import opened Basics
  import opened Utf8
  import opened Relational

  // ---- the nine stages, in order ----------------------------------------------------

  /** The two tables whose rows get generated ids. */
  datatype EntKind = Modules | Facts

  /** The tables copied in committed batches. */
  datatype Table = Bodies | Sightings | Enrichment | Deps | FactHistory | Embeddings | Repos

  datatype Stage = Ents(kind: EntKind) | Kid(t: Table)

  const ORDER: seq<Stage> := [
    Ents(Modules), Kid(Bodies), Kid(Sightings), Kid(Enrichment), Kid(Deps),
    Ents(Facts), Kid(FactHistory), Kid(Embeddings), Kid(Repos)]

  const STAGES := 9
  const MODULES_AT := 0
  const FACTS_AT := 5

  function StageOf(t: Table): (s: nat)
    ensures s < STAGES && ORDER[s] == Kid(t)
  {
    match t
    case Bodies => 1
    case Sightings => 2
    case Enrichment => 3
    case Deps => 4
    case FactHistory => 6
    case Embeddings => 7
    case Repos => 8
  }

  /** The conflict key of each batched table, as column positions. */
  function KeyCols(t: Table): seq<nat> {
    match t
    case Bodies => [0]
    case Sightings => [0, 1, 2]
    case Enrichment => [0]
    case Deps => [0, 1]
    case FactHistory => [0, 5]
    case Embeddings => [0]
    case Repos => [0]
  }

  function ParentOf(t: Table): Option<EntKind> {
    match t
    case Bodies => None
    case Repos => None
    case FactHistory => Some(Facts)
    case _ => Some(Modules)
  }

  // ---- scanRows ---------------------------------------------------------------------

  type SrcRow = seq<Val>

  /** A source table: its rows in scan order and which columns are declared BLOB or BYTEA. */
  datatype Scan = Scan(rows: seq<SrcRow>, blobs: set<nat>)

  datatype Source = Source(mods: Scan, facts: Scan, kids: map<Table, Scan>)

  function VAt(v: SrcRow, i: nat): Val {
    if i < |v| then v[i] else Null
  }

  function SanitizeByCol(v: Val, blob: bool): Val {
    if blob then v
    else match v
      case Text(t) => Text(Sanitized(t))
      case Blob(b) => Text(Sanitized(b))
      case _ => v
  }

  function ScanRow(row: SrcRow, blobs: set<nat>): (out: SrcRow)
    ensures |out| == |row|
    ensures forall i | 0 <= i < |row| :: out[i] == SanitizeByCol(row[i], i in blobs)
  {
    seq(|row|, i requires 0 <= i < |row| => SanitizeByCol(row[i], i in blobs))
  }

  /** No bad byte and no NUL reaches a text column, and no binary value a text statement; text and
      undeclared blobs arrive sanitised, clean text, numbers, NULL and declared BLOB or BYTEA
      columns as they were. */
  lemma ScannedTextIsClean(row: SrcRow, blobs: set<nat>, i: nat)
    requires i < |row|
    ensures var v := ScanRow(row, blobs)[i];
            && (i in blobs ==> v == row[i])
            && (i !in blobs ==> !v.Blob? && (v.Text? ==> ValidString(v.t) && 0 !in v.t))
            && (i !in blobs && row[i].Text? ==> v == Text(Sanitized(row[i].t)))
            && (i !in blobs && row[i].Blob? ==> v == Text(Sanitized(row[i].b)))
            && (row[i].Text? && ValidString(row[i].t) && 0 !in row[i].t ==> v == row[i])
            && (row[i].Null? || row[i].Int? || row[i].Real? ==> v == row[i])
  {
    match row[i]
    case Text(t) =>
      SanitizedIsClean(t);
      SanitizedEqualIffClean(t);
    case Blob(b) => SanitizedIsClean(b);
    case _ =>
  }

  function Scanned(sc: Scan): (out: seq<SrcRow>)
    ensures |out| == |sc.rows|
    ensures forall i | 0 <= i < |sc.rows| :: out[i] == ScanRow(sc.rows[i], sc.blobs)
  {
    seq(|sc.rows|, i requires 0 <= i < |sc.rows| => ScanRow(sc.rows[i], sc.blobs))
  }

  function KidRows(src: Source, t: Table): seq<SrcRow> {
    if t in src.kids then Scanned(src.kids[t]) else []
  }

  function EntRows(src: Source, kind: EntKind): seq<SrcRow> {
    if kind.Modules? then Scanned(src.mods) else Scanned(src.facts)
  }

  /** A column read with a failed integer assertion gives 0. */
  function OldId(v: SrcRow, i: nat): int {
    if VAt(v, i).Int? then VAt(v, i).i else 0
  }

  // ---- modules and app_facts --------------------------------------------------------

  type Key = seq<Val>

  /** stamp is modules.last_seen_at, the one column a conflict refreshes. */
  datatype Ent = Ent(key: Key, cols: seq<Val>, stamp: Val)

  function Pick(v: SrcRow, cols: seq<nat>): seq<Val> {
    seq(|cols|, i requires 0 <= i < |cols| => VAt(v, cols[i]))
  }

  function EntKey(kind: EntKind, v: SrcRow): Key {
    if kind.Modules? then Pick(v, [1, 7]) else Pick(v, [1, 2, 3])
  }

  function NewEnt(kind: EntKind, v: SrcRow): Ent {
    if kind.Modules? then
      Ent(EntKey(kind, v), Pick(v, [1, 2, 3, 4, 5, 6, 7, 8, 9, 10, 11, 13, 14]), VAt(v, 12))
    else
      Ent(EntKey(kind, v), Pick(v, [1, 2, 3, 4, 5, 6, 7, 8, 9, 10, 11, 12]), Null)
  }

  /** modules: DO UPDATE SET last_seen_at; app_facts: DO NOTHING. */
  function OnConflict(kind: EntKind, e: Ent, v: SrcRow): Ent {
    if kind.Modules? then e.(stamp := VAt(v, 12)) else e
  }

  /** A table with a generated id and a unique index on its natural key. next is the identity
      sequence: it moves on every attempted insert and never moves back. */
  datatype EntTable = EntTable(byKey: map<Key, nat>, byId: map<nat, Ent>, next: nat)

  ghost predicate EntWF(t: EntTable) {
    && (forall k | k in t.byKey :: t.byKey[k] in t.byId && t.byId[t.byKey[k]].key == k)
    && (forall i | i in t.byId :: i < t.next && t.byId[i].key in t.byKey && t.byKey[t.byId[i].key] == i)
  }

  /** INSERT ... ON CONFLICT ... RETURNING id (or the follow-up lookup by key). */
  function EntPut(kind: EntKind, t: EntTable, v: SrcRow): (r: (EntTable, nat))
    requires EntWF(t)
    ensures EntWF(r.0)
    ensures r.1 in r.0.byId && r.0.byId[r.1].key == EntKey(kind, v)
  {
    var key := EntKey(kind, v);
    if key in t.byKey then
      var id := t.byKey[key];
      (t.(byId := t.byId[id := OnConflict(kind, t.byId[id], v)], next := t.next + 1), id)
    else
      (EntTable(t.byKey[key := t.next], t.byId[t.next := NewEnt(kind, v)], t.next + 1), t.next)
  }

  /** The cell a child row stores for a parent. */
  function IdCell(kind: EntKind, id: nat): Cell {
    if kind.Modules? then ModId(id) else FactId(id)
  }

  /** The whole pass: the table afterwards and the old id -> new id map. */
  function EntAll(kind: EntKind, t: EntTable, rows: seq<SrcRow>): (r: (EntTable, map<int, Cell>))
    requires EntWF(t)
    ensures EntWF(r.0)
  {
    if rows == [] then (t, map[])
    else
      var n := |rows| - 1;
      var (t1, ids) := EntAll(kind, t, rows[..n]);
      var (t2, id) := EntPut(kind, t1, rows[n]);
      (t2, ids[OldId(rows[n], 0) := IdCell(kind, id)])
  }

  // ---- remapped child rows ----------------------------------------------------------

  /** The row a copy sends for source row v, or None when its parent is unmapped.
      mods and facts give, for an old parent id, the cell to store in its place. */
  function Remap(t: Table, v: SrcRow, mods: map<int, Cell>, facts: map<int, Cell>): Option<Row> {
    var plain := seq(|v|, i requires 0 <= i < |v| => V(v[i]));
    match ParentOf(t)
    case None => Some(plain)
    case Some(kind) =>
      var ids := if kind.Modules? then mods else facts;
      if OldId(v, 0) !in ids then None
      else if t.Deps? then Some([ids[OldId(v, 0)], V(VAt(v, 1)), DepTarget(v, ids)])
      else Some([ids[OldId(v, 0)]] + (if |plain| > 0 then plain[1..] else []))
  }

  /** module_deps.to_id: NULL stays NULL, an unmapped target becomes NULL. */
  function DepTarget(v: SrcRow, mods: map<int, Cell>): Cell {
    if VAt(v, 2) != Null && OldId(v, 2) in mods then mods[OldId(v, 2)] else V(Null)
  }

  function Ops(t: Table, rows: seq<SrcRow>, mods: map<int, Cell>, facts: map<int, Cell>): seq<Row> {
    if rows == [] then []
    else
      var n := |rows| - 1;
      match Remap(t, rows[n], mods, facts)
      case None => Ops(t, rows[..n], mods, facts)
      case Some(row) => Ops(t, rows[..n], mods, facts) + [row]
  }

  // ---- a run, killed anywhere -------------------------------------------------------

  datatype Db = Db(mods: EntTable, facts: EntTable, kids: map<Table, seq<Row>>)

  ghost predicate CellOk(c: Cell, mods: EntTable, facts: EntTable) {
    match c
    case V(_) => true
    case ModId(i) => i < mods.next
    case FactId(i) => i < facts.next
    case _ => false
  }

  ghost predicate RowOk(r: Row, mods: EntTable, facts: EntTable) {
    forall c | c in r :: CellOk(c, mods, facts)
  }

  ghost predicate RowsOk(rs: seq<Row>, mods: EntTable, facts: EntTable) {
    forall r | r in rs :: RowOk(r, mods, facts)
  }

  predicate Full(kids: map<Table, seq<Row>>) {
    forall t: Table :: t in kids
  }

  ghost predicate KidsOk(kids: map<Table, seq<Row>>, mods: EntTable, facts: EntTable)
    requires Full(kids)
  {
    forall t: Table :: RowsOk(kids[t], mods, facts)
  }

  /** Unique ids and keys, and no stored id the sequence could hand out again. */
  ghost predicate WF(db: Db) {
    && EntWF(db.mods) && EntWF(db.facts)
    && Full(db.kids)
    && KidsOk(db.kids, db.mods, db.facts)
  }

  function EntStage(db: EntTable, kind: EntKind, src: Source, reached: bool): (r: (EntTable, map<int, Cell>))
    requires EntWF(db)
    ensures EntWF(r.0)
  {
    if reached then EntAll(kind, db, EntRows(src, kind)) else (db, map[])
  }

  /** How many of a table's n rows are durable once the run got to stage s and, in it, row k. */
  function Durable(t: Table, n: nat, s: nat, k: nat): (d: nat)
    ensures d <= n
  {
    if StageOf(t) < s then n
    else if StageOf(t) == s && k <= n then k
    else if StageOf(t) == s then n
    else 0
  }

  /** The catalog after a run that completed the stages before s and then committed the first
      k rows of stage s. The single-transaction stages leave nothing unless completed. */
  function Run(db: Db, src: Source, s: nat, k: nat): Db
    requires WF(db)
  {
    var (m, mi) := EntStage(db.mods, Modules, src, s > MODULES_AT);
    var (f, fi) := EntStage(db.facts, Facts, src, s > FACTS_AT);
    Db(m, f, KidsAfter(db.kids, src, s, k, mi, fi))
  }

  function KidAfter(table: seq<Row>, rows: seq<SrcRow>, t: Table, s: nat, k: nat,
                    mods: map<int, Cell>, facts: map<int, Cell>): seq<Row> {
    var ops := Ops(t, rows, mods, facts);
    InsertAll(table, ops[..Durable(t, |ops|, s, k)], KeyCols(t))
  }

  function KidsAfter(kids: map<Table, seq<Row>>, src: Source, s: nat, k: nat,
                     mods: map<int, Cell>, facts: map<int, Cell>): (out: map<Table, seq<Row>>)
    requires Full(kids)
    ensures Full(out)
  {
    map t: Table :: KidAfter(kids[t], KidRows(src, t), t, s, k, mods, facts)
  }

  lemma RowsOkMonotone(rs: seq<Row>, m: EntTable, f: EntTable, m': EntTable, f': EntTable)
    requires RowsOk(rs, m, f) && m.next <= m'.next && f.next <= f'.next
    ensures RowsOk(rs, m', f')
  {
    forall r, c | r in rs && c in r ensures CellOk(c, m', f') {
      assert RowOk(r, m, f) && CellOk(c, m, f);
    }
  }

  /** Ids burnt by inserts that conflicted or rolled back. */
  function Skip(db: Db, modGap: nat, factGap: nat): Db {
    Db(db.mods.(next := db.mods.next + modGap), db.facts.(next := db.facts.next + factGap), db.kids)
  }

  lemma SkipWF(db: Db, modGap: nat, factGap: nat)
    requires WF(db)
    ensures WF(Skip(db, modGap, factGap))
  {
    var out := Skip(db, modGap, factGap);
    forall t: Table ensures RowsOk(db.kids[t], out.mods, out.facts) {
      RowsOkMonotone(db.kids[t], db.mods, db.facts, out.mods, out.facts);
    }
  }

  function Complete(db: Db, src: Source): Db
    requires WF(db)
  {
    Run(db, src, STAGES, 0)
  }

  /** One killed or failed run: where it stopped, and the ids it burnt beyond the committed ones. */
  datatype Kill = Kill(stage: nat, rows: nat, modGap: nat, factGap: nat)

  /** The catalog a killed run leaves. */
  function AfterKill(db: Db, src: Source, k: Kill): Db
    requires WF(db)
  {
    Skip(Run(db, src, k.stage, k.rows), k.modGap, k.factGap)
  }
}
