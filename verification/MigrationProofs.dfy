/** The migrator's promise: killed runs followed by one complete run leave what a single
    complete run leaves, up to renaming of generated ids. Tables are compared through a view
    that names every parent by its unique key; the run on that view never mentions an id. */
module MigrationProofs {
  import opened Basics
  import opened Utf8
  import opened Relational
  import opened MigrationModel

  // ---- the run on natural keys ------------------------------------------------------

  type Named = map<Key, Ent>

  function NamedPut(kind: EntKind, m: Named, v: SrcRow): Named {
    var key := EntKey(kind, v);
    if key in m then m[key := OnConflict(kind, m[key], v)] else m[key := NewEnt(kind, v)]
  }

  function NamedAll(kind: EntKind, m: Named, rows: seq<SrcRow>): Named {
    if rows == [] then m
    else NamedPut(kind, NamedAll(kind, m, rows[..|rows| - 1]), rows[|rows| - 1])
  }

  function RefCell(kind: EntKind, key: Key): Cell {
    if kind.Modules? then ModRef(key) else FactRef(key)
  }

  /** The key the source gives each old id; a repeated old id keeps its last row. */
  function SrcRefs(kind: EntKind, rows: seq<SrcRow>): (refs: map<int, Cell>)
    ensures forall o | o in refs :: if kind.Modules? then refs[o].ModRef? else refs[o].FactRef?
  {
    if rows == [] then map[]
    else
      var v := rows[|rows| - 1];
      SrcRefs(kind, rows[..|rows| - 1])[OldId(v, 0) := RefCell(kind, EntKey(kind, v))]
  }

  function ModRefs(src: Source): map<int, Cell> {
    SrcRefs(Modules, EntRows(src, Modules))
  }

  function FactRefs(src: Source): map<int, Cell> {
    SrcRefs(Facts, EntRows(src, Facts))
  }

  /** The child rows a source sends, with parents named by key. */
  function NamedOps(src: Source, t: Table): seq<Row> {
    Ops(t, KidRows(src, t), ModRefs(src), FactRefs(src))
  }

  datatype NamedDb = NamedDb(mods: Named, facts: Named, kids: map<Table, seq<Row>>)

  function NamedRun(nd: NamedDb, src: Source, s: nat, k: nat): NamedDb
    requires Full(nd.kids)
  {
    NamedDb(
      if s > MODULES_AT then NamedAll(Modules, nd.mods, EntRows(src, Modules)) else nd.mods,
      if s > FACTS_AT then NamedAll(Facts, nd.facts, EntRows(src, Facts)) else nd.facts,
      KidsAfter(nd.kids, src, s, k, ModRefs(src), FactRefs(src)))
  }

  // ---- the view ---------------------------------------------------------------------

  function EntView(t: EntTable): Named
    requires EntWF(t)
  {
    map k | k in t.byKey :: t.byId[t.byKey[k]]
  }

  function CellView(c: Cell, mods: EntTable, facts: EntTable): Cell {
    match c
    case ModId(i) => if i in mods.byId then ModRef(mods.byId[i].key) else c
    case FactId(i) => if i in facts.byId then FactRef(facts.byId[i].key) else c
    case _ => c
  }

  function RowView(r: Row, mods: EntTable, facts: EntTable): (out: Row)
    ensures |out| == |r| && forall i | 0 <= i < |r| :: out[i] == CellView(r[i], mods, facts)
  {
    seq(|r|, i requires 0 <= i < |r| => CellView(r[i], mods, facts))
  }

  function RowsView(rs: seq<Row>, mods: EntTable, facts: EntTable): (out: seq<Row>)
    ensures |out| == |rs| && forall i | 0 <= i < |rs| :: out[i] == RowView(rs[i], mods, facts)
  {
    seq(|rs|, i requires 0 <= i < |rs| => RowView(rs[i], mods, facts))
  }

  function KidsView(kids: map<Table, seq<Row>>, mods: EntTable, facts: EntTable): (out: map<Table, seq<Row>>)
    requires Full(kids)
    ensures Full(out)
  {
    map t: Table :: RowsView(kids[t], mods, facts)
  }

  function View(db: Db): NamedDb
    requires WF(db)
  {
    NamedDb(EntView(db.mods), EntView(db.facts), KidsView(db.kids, db.mods, db.facts))
  }

  // ---- the id-generating tables follow their named form -------------------------------

  lemma EntPutNamed(kind: EntKind, t: EntTable, v: SrcRow)
    requires EntWF(t)
    ensures EntView(EntPut(kind, t, v).0) == NamedPut(kind, EntView(t), v)
  {
  }

  /** Rows keep their id and key; new ids are new. */
  ghost predicate Extends(t: EntTable, t': EntTable) {
    && t.next <= t'.next
    && (forall i | i in t.byId :: i in t'.byId && t'.byId[i].key == t.byId[i].key)
    && (forall i | i in t'.byId && i !in t.byId :: t.next <= i)
  }

  ghost predicate Minted(kind: EntKind, ids: map<int, Cell>, t: EntTable) {
    forall o | o in ids :: (ids[o].ModId? || ids[o].FactId?) && ids[o] == IdCell(kind, ids[o].id) && ids[o].id in t.byId
  }

  lemma EntPutExtends(kind: EntKind, t: EntTable, v: SrcRow)
    requires EntWF(t)
    ensures Extends(t, EntPut(kind, t, v).0)
  {
  }

  /** The id map of a pass leads to the keys the source gives. */
  ghost predicate Leads(kind: EntKind, ids: map<int, Cell>, refs: map<int, Cell>, t: EntTable) {
    && Minted(kind, ids, t)
    && ids.Keys == refs.Keys
    && forall o | o in ids :: RefCell(kind, t.byId[ids[o].id].key) == refs[o]
  }

  lemma LeadsOn(kind: EntKind, ids: map<int, Cell>, refs: map<int, Cell>, t: EntTable, t': EntTable, o: int, id: nat)
    requires Leads(kind, ids, refs, t) && Extends(t, t') && id in t'.byId
    ensures Leads(kind, ids[o := IdCell(kind, id)], refs[o := RefCell(kind, t'.byId[id].key)], t')
  {
  }

  lemma {:induction false} EntAllNamed(kind: EntKind, t: EntTable, rows: seq<SrcRow>)
    requires EntWF(t)
    ensures EntView(EntAll(kind, t, rows).0) == NamedAll(kind, EntView(t), rows)
    ensures Extends(t, EntAll(kind, t, rows).0)
    ensures Leads(kind, EntAll(kind, t, rows).1, SrcRefs(kind, rows), EntAll(kind, t, rows).0)
  {
    if rows == [] {
    } else {
      var n := |rows| - 1;
      EntAllNamed(kind, t, rows[..n]);
      var (t1, ids) := EntAll(kind, t, rows[..n]);
      var (t2, id) := EntPut(kind, t1, rows[n]);
      EntPutExtends(kind, t1, rows[n]);
      EntPutNamed(kind, t1, rows[n]);
      LeadsOn(kind, ids, SrcRefs(kind, rows[..n]), t1, t2, OldId(rows[n], 0), id);
    }
  }

  // ---- the view keeps conflicts apart and together -------------------------------------

  lemma CellViewInjective(c: Cell, d: Cell, mods: EntTable, facts: EntTable)
    requires EntWF(mods) && EntWF(facts)
    requires CellOk(c, mods, facts) && CellOk(d, mods, facts)
    ensures CellView(c, mods, facts) == CellView(d, mods, facts) <==> c == d
  {
  }

  lemma ProjectView(r: Row, cols: seq<nat>, mods: EntTable, facts: EntTable)
    ensures |Project(RowView(r, mods, facts), cols)| == |Project(r, cols)| == |cols|
    ensures forall i | 0 <= i < |cols| ::
              Project(RowView(r, mods, facts), cols)[i] == CellView(Project(r, cols)[i], mods, facts)
  {
  }

  lemma ProjectViewInjective(r: Row, s: Row, cols: seq<nat>, mods: EntTable, facts: EntTable)
    requires EntWF(mods) && EntWF(facts)
    requires RowOk(r, mods, facts) && RowOk(s, mods, facts)
    ensures Project(RowView(r, mods, facts), cols) == Project(RowView(s, mods, facts), cols)
            <==> Project(r, cols) == Project(s, cols)
  {
    ProjectView(r, cols, mods, facts);
    ProjectView(s, cols, mods, facts);
    forall i | 0 <= i < |cols|
      ensures Project(RowView(r, mods, facts), cols)[i] == Project(RowView(s, mods, facts), cols)[i]
              <==> Project(r, cols)[i] == Project(s, cols)[i]
    {
      CellViewInjective(At(r, cols[i]), At(s, cols[i]), mods, facts);
    }
  }

  lemma NullKeyView(r: Row, cols: seq<nat>, mods: EntTable, facts: EntTable)
    ensures NullKey(RowView(r, mods, facts), cols) <==> NullKey(r, cols)
  {
    var p, q := Project(RowView(r, mods, facts), cols), Project(r, cols);
    ProjectView(r, cols, mods, facts);
    if NullKey(r, cols) {
      var i :| 0 <= i < |q| && q[i] == V(Null);
      assert p[i] == V(Null);
    }
    if V(Null) in p {
      var i :| 0 <= i < |p| && p[i] == V(Null);
      assert q[i] == V(Null);
    }
  }

  lemma TakenView(t: seq<Row>, r: Row, cols: seq<nat>, mods: EntTable, facts: EntTable)
    requires EntWF(mods) && EntWF(facts)
    requires RowOk(r, mods, facts) && RowsOk(t, mods, facts)
    ensures Taken(RowsView(t, mods, facts), RowView(r, mods, facts), cols) <==> Taken(t, r, cols)
  {
    var tv, rv := RowsView(t, mods, facts), RowView(r, mods, facts);
    if Taken(t, r, cols) {
      var j :| 0 <= j < |t| && Project(t[j], cols) == Project(r, cols);
      ProjectViewInjective(t[j], r, cols, mods, facts);
      assert tv[j] in tv;
    }
    if Taken(tv, rv, cols) {
      var j :| 0 <= j < |tv| && Project(tv[j], cols) == Project(rv, cols);
      ProjectViewInjective(t[j], r, cols, mods, facts);
      assert t[j] in t;
    }
  }

  lemma InsertView(t: seq<Row>, r: Row, cols: seq<nat>, mods: EntTable, facts: EntTable)
    requires EntWF(mods) && EntWF(facts)
    requires RowOk(r, mods, facts) && RowsOk(t, mods, facts)
    ensures RowsOk(Insert(t, r, cols), mods, facts)
    ensures RowsView(Insert(t, r, cols), mods, facts)
            == Insert(RowsView(t, mods, facts), RowView(r, mods, facts), cols)
  {
    TakenView(t, r, cols, mods, facts);
    NullKeyView(r, cols, mods, facts);
    assert RowsView(t + [r], mods, facts) == RowsView(t, mods, facts) + [RowView(r, mods, facts)];
  }

  lemma {:induction false} InsertAllOk(t: seq<Row>, rows: seq<Row>, cols: seq<nat>, mods: EntTable, facts: EntTable)
    requires RowsOk(t, mods, facts) && RowsOk(rows, mods, facts)
    ensures RowsOk(InsertAll(t, rows, cols), mods, facts)
  {
    if rows == [] {
    } else {
      var n := |rows| - 1;
      assert RowsOk(rows[..n], mods, facts);
      InsertAllOk(t, rows[..n], cols, mods, facts);
      assert rows[n] in rows;
    }
  }

  lemma {:induction false} InsertAllView(t: seq<Row>, rows: seq<Row>, cols: seq<nat>, mods: EntTable, facts: EntTable)
    requires EntWF(mods) && EntWF(facts)
    requires RowsOk(t, mods, facts) && RowsOk(rows, mods, facts)
    ensures RowsView(InsertAll(t, rows, cols), mods, facts)
            == InsertAll(RowsView(t, mods, facts), RowsView(rows, mods, facts), cols)
  {
    if rows == [] {
    } else {
      var n := |rows| - 1;
      var before := InsertAll(t, rows[..n], cols);
      assert RowsOk(rows[..n], mods, facts);
      InsertAllOk(t, rows[..n], cols, mods, facts);
      InsertAllView(t, rows[..n], cols, mods, facts);
      assert rows[n] in rows;
      InsertView(before, rows[n], cols, mods, facts);
      assert RowsView(rows, mods, facts)[..n] == RowsView(rows[..n], mods, facts);
    }
  }

  // ---- remapped rows follow their named form -----------------------------------------

  /** new ids on the left, their keys on the right */
  ghost predicate Matches(ids: map<int, Cell>, refs: map<int, Cell>, mods: EntTable, facts: EntTable) {
    ids.Keys == refs.Keys
    && forall o | o in ids :: CellOk(ids[o], mods, facts) && CellView(ids[o], mods, facts) == refs[o]
  }

  lemma RemapView(t: Table, v: SrcRow, mi: map<int, Cell>, fi: map<int, Cell>, mr: map<int, Cell>, fr: map<int, Cell>,
                  mods: EntTable, facts: EntTable)
    requires ParentOf(t) == Some(Modules) ==> Matches(mi, mr, mods, facts)
    requires ParentOf(t) == Some(Facts) ==> Matches(fi, fr, mods, facts)
    ensures Remap(t, v, mi, fi).None? <==> Remap(t, v, mr, fr).None?
    ensures var r, s := Remap(t, v, mi, fi), Remap(t, v, mr, fr);
            r.Some? ==> RowOk(r.value, mods, facts) && RowView(r.value, mods, facts) == s.value
  {
  }

  lemma ViewSnoc(rs: seq<Row>, r: Row, mods: EntTable, facts: EntTable)
    requires RowsOk(rs, mods, facts) && RowOk(r, mods, facts)
    ensures RowsOk(rs + [r], mods, facts)
    ensures RowsView(rs + [r], mods, facts) == RowsView(rs, mods, facts) + [RowView(r, mods, facts)]
  {
  }

  lemma {:induction false} OpsView(t: Table, rows: seq<SrcRow>, mi: map<int, Cell>, fi: map<int, Cell>,
                                   mr: map<int, Cell>, fr: map<int, Cell>, mods: EntTable, facts: EntTable)
    requires ParentOf(t) == Some(Modules) ==> Matches(mi, mr, mods, facts)
    requires ParentOf(t) == Some(Facts) ==> Matches(fi, fr, mods, facts)
    ensures RowsOk(Ops(t, rows, mi, fi), mods, facts)
    ensures RowsView(Ops(t, rows, mi, fi), mods, facts) == Ops(t, rows, mr, fr)
  {
    if rows == [] {
    } else {
      var n := |rows| - 1;
      OpsView(t, rows[..n], mi, fi, mr, fr, mods, facts);
      RemapView(t, rows[n], mi, fi, mr, fr, mods, facts);
      var r := Remap(t, rows[n], mi, fi);
      if r.Some? { ViewSnoc(Ops(t, rows[..n], mi, fi), r.value, mods, facts); }
    }
  }

  // ---- simulation: a run by ids is a run by names ---------------------------------------

  /** Rows stored before keep their view: keys never change and new ids are new. */
  lemma OldRowsView(rs: seq<Row>, m: EntTable, f: EntTable, m': EntTable, f': EntTable)
    requires Extends(m, m') && Extends(f, f')
    requires RowsOk(rs, m, f)
    ensures RowsOk(rs, m', f')
    ensures RowsView(rs, m', f') == RowsView(rs, m, f)
  {
    forall r | r in rs ensures RowOk(r, m', f') && RowView(r, m', f') == RowView(r, m, f) {
      forall c | c in r ensures CellOk(c, m', f') && CellView(c, m', f') == CellView(c, m, f) {
        assert CellOk(c, m, f);
      }
    }
  }

  lemma EntStageNamed(kind: EntKind, t: EntTable, src: Source, reached: bool)
    requires EntWF(t)
    ensures var (t', ids) := EntStage(t, kind, src, reached);
            && Extends(t, t')
            && EntView(t') == (if reached then NamedAll(kind, EntView(t), EntRows(src, kind)) else EntView(t))
            && (reached ==> Leads(kind, ids, SrcRefs(kind, EntRows(src, kind)), t'))
  {
    if reached { EntAllNamed(kind, t, EntRows(src, kind)); }
  }

  /** What the two id maps of a run that got to stage s guarantee. */
  ghost predicate IdsMatch(src: Source, s: nat, mi: map<int, Cell>, fi: map<int, Cell>, m: EntTable, f: EntTable) {
    && (s > MODULES_AT ==> Matches(mi, ModRefs(src), m, f))
    && (s > FACTS_AT ==> Matches(fi, FactRefs(src), m, f))
  }

  lemma LeadsMatch(kind: EntKind, ids: map<int, Cell>, refs: map<int, Cell>, m: EntTable, f: EntTable)
    requires EntWF(m) && EntWF(f) && Leads(kind, ids, refs, if kind.Modules? then m else f)
    ensures Matches(ids, refs, m, f)
  {
  }

  /** after follows its named form named */
  ghost predicate Follows(after: seq<Row>, named: seq<Row>, m: EntTable, f: EntTable) {
    RowsOk(after, m, f) && RowsView(after, m, f) == named
  }

  lemma InsertAllFollows(table: seq<Row>, ops: seq<Row>, named: seq<Row>, cols: seq<nat>, m: EntTable, f: EntTable)
    requires EntWF(m) && EntWF(f) && RowsOk(table, m, f) && Follows(ops, named, m, f)
    ensures Follows(InsertAll(table, ops, cols), InsertAll(RowsView(table, m, f), named, cols), m, f)
  {
    InsertAllOk(table, ops, cols, m, f);
    InsertAllView(table, ops, cols, m, f);
  }

  lemma PrefixFollows(ops: seq<Row>, named: seq<Row>, d: nat, m: EntTable, f: EntTable)
    requires Follows(ops, named, m, f) && d <= |ops|
    ensures |named| == |ops| && Follows(ops[..d], named[..d], m, f)
  {
    assert RowsView(ops[..d], m, f) == RowsView(ops, m, f)[..d];
  }

  lemma PrefixSimulates(table: seq<Row>, t: Table, rows: seq<SrcRow>, d: nat, mi: map<int, Cell>, fi: map<int, Cell>,
                        mr: map<int, Cell>, fr: map<int, Cell>, m: EntTable, f: EntTable)
    requires EntWF(m) && EntWF(f)
    requires ParentOf(t) == Some(Modules) ==> Matches(mi, mr, m, f)
    requires ParentOf(t) == Some(Facts) ==> Matches(fi, fr, m, f)
    requires RowsOk(table, m, f)
    requires d <= |Ops(t, rows, mi, fi)|
    ensures |Ops(t, rows, mr, fr)| == |Ops(t, rows, mi, fi)|
    ensures Follows(InsertAll(table, Ops(t, rows, mi, fi)[..d], KeyCols(t)),
                    InsertAll(RowsView(table, m, f), Ops(t, rows, mr, fr)[..d], KeyCols(t)), m, f)
  {
    OpsView(t, rows, mi, fi, mr, fr, m, f);
    PrefixFollows(Ops(t, rows, mi, fi), Ops(t, rows, mr, fr), d, m, f);
    InsertAllFollows(table, Ops(t, rows, mi, fi)[..d], Ops(t, rows, mr, fr)[..d], KeyCols(t), m, f);
  }

  lemma ParentsFirst(t: Table, s: nat)
    requires StageOf(t) <= s
    ensures ParentOf(t) == Some(Modules) ==> s > MODULES_AT
    ensures ParentOf(t) == Some(Facts) ==> s > FACTS_AT
  {
  }

  lemma KidSimulates(table: seq<Row>, src: Source, t: Table, s: nat, k: nat,
                     mi: map<int, Cell>, fi: map<int, Cell>, m: EntTable, f: EntTable)
    requires EntWF(m) && EntWF(f) && IdsMatch(src, s, mi, fi, m, f) && RowsOk(table, m, f)
    ensures Follows(KidAfter(table, KidRows(src, t), t, s, k, mi, fi),
                    KidAfter(RowsView(table, m, f), KidRows(src, t), t, s, k, ModRefs(src), FactRefs(src)), m, f)
  {
    var rows, mr, fr := KidRows(src, t), ModRefs(src), FactRefs(src);
    if StageOf(t) <= s {
      ParentsFirst(t, s);
      PrefixSimulates(table, t, rows, Durable(t, |Ops(t, rows, mi, fi)|, s, k), mi, fi, mr, fr, m, f);
    } else {
      assert Ops(t, rows, mi, fi)[..0] == [] == Ops(t, rows, mr, fr)[..0];
    }
  }

  lemma KidsFollow(after: map<Table, seq<Row>>, named: map<Table, seq<Row>>,
                   m: EntTable, f: EntTable)
    requires Full(after) && Full(named) && forall t: Table :: Follows(after[t], named[t], m, f)
    ensures KidsOk(after, m, f) && KidsView(after, m, f) == named
  {
  }

  /** The child tables of a run, given the two parent tables and id maps it ends with. */
  lemma KidsSimulate(kids: map<Table, seq<Row>>, src: Source, s: nat, k: nat,
                     mi: map<int, Cell>, fi: map<int, Cell>, m: EntTable, f: EntTable)
    requires Full(kids) && EntWF(m) && EntWF(f) && KidsOk(kids, m, f)
    requires IdsMatch(src, s, mi, fi, m, f)
    ensures KidsOk(KidsAfter(kids, src, s, k, mi, fi), m, f)
    ensures KidsView(KidsAfter(kids, src, s, k, mi, fi), m, f)
            == KidsAfter(KidsView(kids, m, f), src, s, k, ModRefs(src), FactRefs(src))
  {
    var after := KidsAfter(kids, src, s, k, mi, fi);
    var named := KidsAfter(KidsView(kids, m, f), src, s, k, ModRefs(src), FactRefs(src));
    forall t: Table ensures Follows(after[t], named[t], m, f) {
      KidSimulates(kids[t], src, t, s, k, mi, fi, m, f);
    }
    KidsFollow(after, named, m, f);
  }

  lemma OldKidsView(kids: map<Table, seq<Row>>, m: EntTable, f: EntTable, m': EntTable, f': EntTable)
    requires Full(kids) && KidsOk(kids, m, f) && Extends(m, m') && Extends(f, f')
    ensures KidsOk(kids, m', f') && KidsView(kids, m', f') == KidsView(kids, m, f)
  {
    forall t: Table
      ensures RowsOk(kids[t], m', f')
      ensures RowsView(kids[t], m', f') == RowsView(kids[t], m, f)
    {
      OldRowsView(kids[t], m, f, m', f');
    }
  }

  lemma Simulates(db: Db, src: Source, s: nat, k: nat)
    requires WF(db)
    ensures WF(Run(db, src, s, k))
    ensures View(Run(db, src, s, k)) == NamedRun(View(db), src, s, k)
  {
    var (m, mi) := EntStage(db.mods, Modules, src, s > MODULES_AT);
    var (f, fi) := EntStage(db.facts, Facts, src, s > FACTS_AT);
    EntStageNamed(Modules, db.mods, src, s > MODULES_AT);
    EntStageNamed(Facts, db.facts, src, s > FACTS_AT);
    if s > MODULES_AT { LeadsMatch(Modules, mi, ModRefs(src), m, f); }
    if s > FACTS_AT { LeadsMatch(Facts, fi, FactRefs(src), m, f); }
    OldKidsView(db.kids, db.mods, db.facts, m, f);
    KidsSimulate(db.kids, src, s, k, mi, fi, m, f);
  }

  lemma SkipView(db: Db, modGap: nat, factGap: nat)
    requires WF(db)
    ensures WF(Skip(db, modGap, factGap))
    ensures View(Skip(db, modGap, factGap)) == View(db)
  {
    SkipWF(db, modGap, factGap);
    var db' := Skip(db, modGap, factGap);
    OldKidsView(db.kids, db.mods, db.facts, db'.mods, db'.facts);
  }

  // ---- replay, on names -------------------------------------------------------------------

  /** after is m with the stamps of the module rows replayed so far. */
  ghost predicate Restamped(kind: EntKind, m: Named, stamps: map<Key, Val>, after: Named) {
    && after.Keys == m.Keys
    && forall key | key in m ::
         after[key] == (if kind.Modules? && key in stamps then m[key].(stamp := stamps[key]) else m[key])
  }

  lemma RestampedOn(kind: EntKind, m: Named, stamps: map<Key, Val>, after: Named, v: SrcRow)
    requires Restamped(kind, m, stamps, after) && EntKey(kind, v) in m
    ensures Restamped(kind, m, stamps[EntKey(Modules, v) := VAt(v, 12)], NamedPut(kind, after, v))
  {
  }

  /** The last row of a key decides its stamp, the table or the first row everything else. */
  lemma {:induction false} NamedAllStable(kind: EntKind, m: Named, rows: seq<SrcRow>, again: seq<SrcRow>)
    requires again <= rows
    ensures Restamped(kind, NamedAll(kind, m, rows), LastStamp(again), NamedAll(kind, NamedAll(kind, m, rows), again))
  {
    if again == [] {
    } else {
      var n := |again| - 1;
      assert again[..n] <= rows;
      NamedAllStable(kind, m, rows, again[..n]);
      NamedAllHasKeys(kind, m, rows, n);
      RestampedOn(kind, NamedAll(kind, m, rows), LastStamp(again[..n]),
                  NamedAll(kind, NamedAll(kind, m, rows), again[..n]), again[n]);
    }
  }

  /** last_seen_at of the last row of each module key. */
  function LastStamp(rows: seq<SrcRow>): map<Key, Val> {
    if rows == [] then map[]
    else LastStamp(rows[..|rows| - 1])[EntKey(Modules, rows[|rows| - 1]) := VAt(rows[|rows| - 1], 12)]
  }

  lemma {:induction false} NamedAllHasKeys(kind: EntKind, m: Named, rows: seq<SrcRow>, i: nat)
    requires i < |rows|
    ensures EntKey(kind, rows[i]) in NamedAll(kind, m, rows)
  {
    var n := |rows| - 1;
    if i == n {
    } else {
      NamedAllHasKeys(kind, m, rows[..n], i);
    }
  }

  lemma {:induction false} NamedAllStamps(m: Named, rows: seq<SrcRow>)
    ensures forall key | key in LastStamp(rows) ::
              key in NamedAll(Modules, m, rows) && NamedAll(Modules, m, rows)[key].stamp == LastStamp(rows)[key]
  {
    if rows == [] {
    } else {
      NamedAllStamps(m, rows[..|rows| - 1]);
    }
  }

  /** modules and app_facts: a second full pass changes nothing. */
  lemma NamedAllIdempotent(kind: EntKind, m: Named, rows: seq<SrcRow>)
    ensures NamedAll(kind, NamedAll(kind, m, rows), rows) == NamedAll(kind, m, rows)
  {
    NamedAllStable(kind, m, rows, rows);
    if kind.Modules? { NamedAllStamps(m, rows); }
  }

  /** No row the source sends has a NULL in its conflict key. The schema forbids NULL in every
      key column but one: module_sightings.byte_offset. */
  ghost predicate NoNullConflictKeys(src: Source) {
    forall t: Table, r | r in NamedOps(src, t) :: !NullKey(r, KeyCols(t))
  }

  lemma KidReplay(table: seq<Row>, src: Source, t: Table, s: nat, k: nat)
    requires NoNullKeys(NamedOps(src, t), KeyCols(t))
    ensures var rows := KidRows(src, t);
            var partial := KidAfter(table, rows, t, s, k, ModRefs(src), FactRefs(src));
            KidAfter(partial, rows, t, STAGES, 0, ModRefs(src), FactRefs(src))
            == KidAfter(table, rows, t, STAGES, 0, ModRefs(src), FactRefs(src))
  {
    var ops := NamedOps(src, t);
    var d := Durable(t, |ops|, s, k);
    assert ops[..|ops|] == ops == ops[..d] + ops[d..];
    assert forall r | r in ops[..d] :: r in ops;
    ReplayIsOnePass(table, ops[..d], ops[d..], KeyCols(t));
  }

  lemma KidsReplay(kids: map<Table, seq<Row>>, src: Source, s: nat, k: nat)
    requires Full(kids) && NoNullConflictKeys(src)
    ensures KidsAfter(KidsAfter(kids, src, s, k, ModRefs(src), FactRefs(src)),
                      src, STAGES, 0, ModRefs(src), FactRefs(src))
            == KidsAfter(kids, src, STAGES, 0, ModRefs(src), FactRefs(src))
  {
    var mr, fr := ModRefs(src), FactRefs(src);
    forall t: Table
      ensures KidAfter(KidAfter(kids[t], KidRows(src, t), t, s, k, mr, fr), KidRows(src, t), t, STAGES, 0, mr, fr)
              == KidAfter(kids[t], KidRows(src, t), t, STAGES, 0, mr, fr)
    {
      KidReplay(kids[t], src, t, s, k);
    }
  }

  lemma NamedReplay(nd: NamedDb, src: Source, s: nat, k: nat)
    requires Full(nd.kids) && NoNullConflictKeys(src)
    ensures NamedRun(NamedRun(nd, src, s, k), src, STAGES, 0) == NamedRun(nd, src, STAGES, 0)
  {
    NamedAllIdempotent(Modules, nd.mods, EntRows(src, Modules));
    NamedAllIdempotent(Facts, nd.facts, EntRows(src, Facts));
    KidsReplay(nd.kids, src, s, k);
  }

  // ---- the promise ------------------------------------------------------------------------

  lemma AfterKillWF(db: Db, src: Source, k: Kill)
    requires WF(db)
    ensures WF(AfterKill(db, src, k))
  {
    Simulates(db, src, k.stage, k.rows);
    SkipWF(Run(db, src, k.stage, k.rows), k.modGap, k.factGap);
  }

  function Runs(db: Db, src: Source, kills: seq<Kill>): (out: Db)
    requires WF(db)
    ensures WF(out)
  {
    if kills == [] then db
    else
      var before := Runs(db, src, kills[..|kills| - 1]);
      AfterKillWF(before, src, kills[|kills| - 1]);
      AfterKill(before, src, kills[|kills| - 1])
  }

  lemma CompleteNamed(db: Db, src: Source)
    requires WF(db)
    ensures WF(Complete(db, src))
    ensures View(Complete(db, src)) == NamedRun(View(db), src, STAGES, 0)
  {
    Simulates(db, src, STAGES, 0);
  }

  lemma AfterKillNamed(db: Db, src: Source, k: Kill)
    requires WF(db)
    ensures WF(AfterKill(db, src, k))
    ensures View(AfterKill(db, src, k)) == NamedRun(View(db), src, k.stage, k.rows)
  {
    Simulates(db, src, k.stage, k.rows);
    SkipView(Run(db, src, k.stage, k.rows), k.modGap, k.factGap);
  }

  /** The complete run after these kills ends where an uninterrupted run ends. */
  ghost predicate SameEnd(db: Db, src: Source, kills: seq<Kill>)
    requires WF(db)
  {
    var resumed, single := Complete(Runs(db, src, kills), src), Complete(db, src);
    WF(resumed) && WF(single) && View(resumed) == View(single)
  }

  /** Any schedule of killed runs, then one complete run: the catalog an uninterrupted run
      would have left, whatever ids were handed out on the way. */
  lemma {:induction false} KilledRunsResume(db: Db, src: Source, kills: seq<Kill>)
    requires WF(db) && NoNullConflictKeys(src)
    ensures SameEnd(db, src, kills)
  {
    CompleteNamed(db, src);
    CompleteNamed(Runs(db, src, kills), src);
    if kills == [] {
    } else {
      var n := |kills| - 1;
      var before, k := Runs(db, src, kills[..n]), kills[n];
      KilledRunsResume(db, src, kills[..n]);
      CompleteNamed(before, src);
      AfterKillNamed(before, src, k);
      NamedReplay(View(before), src, k.stage, k.rows);
    }
  }

  ghost predicate Resumable(db: Db, src: Source)
    requires WF(db)
  {
    forall kills: seq<Kill> :: SameEnd(db, src, kills)
  }

  lemma NullFreeIsResumable(db: Db, src: Source)
    requires WF(db) && NoNullConflictKeys(src)
    ensures Resumable(db, src)
  {
    forall kills: seq<Kill> ensures SameEnd(db, src, kills) {
      KilledRunsResume(db, src, kills);
    }
  }

  lemma NullKeyBreaksReplay(db: Db, src: Source, t: Table, r: Row)
    requires WF(db) && r in NamedOps(src, t) && NullKey(r, KeyCols(t))
    ensures !SameEnd(db, src, [Kill(STAGES, 0, 0, 0)])
  {
    var k := Kill(STAGES, 0, 0, 0);
    var once := AfterKill(db, src, k);
    assert [k][..0] == [];
    assert Runs(db, src, []) == db;
    assert Runs(db, src, [k]) == once;
    AfterKillNamed(db, src, k);
    CompleteNamed(db, src);
    CompleteNamed(once, src);
    NamedGrows(View(once), src, t, r);
  }

  lemma OneScheduleDecides(db: Db, src: Source, kills: seq<Kill>)
    requires WF(db) && Resumable(db, src)
    ensures SameEnd(db, src, kills)
  {
  }

  /** Exactly when the promise holds: no child row is sent with a NULL in its conflict key.
      Otherwise a run that dies after its last commit leaves that row behind and the next
      run appends it again. */
  lemma ResumableIff(db: Db, src: Source)
    requires WF(db)
    ensures Resumable(db, src) <==> NoNullConflictKeys(src)
  {
    if NoNullConflictKeys(src) {
      NullFreeIsResumable(db, src);
    } else if Resumable(db, src) {
      var t: Table, r :| r in NamedOps(src, t) && NullKey(r, KeyCols(t));
      OneScheduleDecides(db, src, [Kill(STAGES, 0, 0, 0)]);
      NullKeyBreaksReplay(db, src, t, r);
    }
  }

  lemma KidGrows(table: seq<Row>, src: Source, t: Table, r: Row)
    requires r in NamedOps(src, t) && NullKey(r, KeyCols(t))
    ensures |KidAfter(table, KidRows(src, t), t, STAGES, 0, ModRefs(src), FactRefs(src))| > |table|
  {
    var ops := NamedOps(src, t);
    assert ops[..|ops|] == ops;
    NullKeyDuplicates(table, ops, r, KeyCols(t));
  }

  lemma NamedGrows(nd: NamedDb, src: Source, t: Table, r: Row)
    requires Full(nd.kids) && r in NamedOps(src, t) && NullKey(r, KeyCols(t))
    ensures NamedRun(nd, src, STAGES, 0) != nd
  {
    KidGrows(nd.kids[t], src, t, r);
    var after := KidsAfter(nd.kids, src, STAGES, 0, ModRefs(src), FactRefs(src));
    assert after[t] == KidAfter(nd.kids[t], KidRows(src, t), t, STAGES, 0, ModRefs(src), FactRefs(src));
    assert |after[t]| > |nd.kids[t]|;
  }

  // ---- remapping is sound ------------------------------------------------------------------

  ghost predicate DistinctOldIds(rows: seq<SrcRow>) {
    forall i, j | 0 <= i < j < |rows| :: OldId(rows[i], 0) != OldId(rows[j], 0)
  }

  /** With unique source ids, an old id leads to the sanitised key of its own row. */
  lemma {:induction false} SrcKeyIsOwnKey(kind: EntKind, rows: seq<SrcRow>, i: nat)
    requires DistinctOldIds(rows) && i < |rows|
    ensures OldId(rows[i], 0) in SrcRefs(kind, rows)
    ensures SrcRefs(kind, rows)[OldId(rows[i], 0)] == RefCell(kind, EntKey(kind, rows[i]))
  {
    var n := |rows| - 1;
    if i == n {
    } else {
      SrcKeyIsOwnKey(kind, rows[..n], i);
    }
  }

  lemma {:induction false} OpsAreRemaps(t: Table, rows: seq<SrcRow>, mods: map<int, Cell>, facts: map<int, Cell>)
    ensures forall r | r in Ops(t, rows, mods, facts) :: exists v :: v in rows && Remap(t, v, mods, facts) == Some(r)
    ensures forall v | v in rows && Remap(t, v, mods, facts).Some? ::
              Remap(t, v, mods, facts).value in Ops(t, rows, mods, facts)
  {
    if rows == [] {
    } else {
      var n := |rows| - 1;
      OpsAreRemaps(t, rows[..n], mods, facts);
      assert forall v | v in rows[..n] :: v in rows;
      assert rows[n] in rows;
    }
  }

  lemma CompleteKid(db: Db, src: Source, t: Table)
    requires WF(db)
    ensures WF(Complete(db, src))
    ensures View(Complete(db, src)).kids[t]
            == KidAfter(View(db).kids[t], KidRows(src, t), t, STAGES, 0, ModRefs(src), FactRefs(src))
  {
    CompleteNamed(db, src);
  }

  /** table holds a row under v's conflict key with the given parent */
  ghost predicate Landed(table: seq<Row>, t: Table, kind: EntKind, parent: Key, v: SrcRow) {
    exists r | r in table ::
      && At(r, 0) == (if kind.Modules? then ModRef(parent) else FactRef(parent))
      && forall c | c in KeyCols(t) && c != 0 :: At(r, c) == V(VAt(v, c))
  }

  /** The cells of a remapped row's conflict key. */
  lemma RemapCells(t: Table, kind: EntKind, v: SrcRow, mods: map<int, Cell>, facts: map<int, Cell>)
    requires ParentOf(t) == Some(kind)
    ensures var ids := if kind.Modules? then mods else facts;
            if OldId(v, 0) !in ids then Remap(t, v, mods, facts) == None
            else Remap(t, v, mods, facts).Some?
                 && At(Remap(t, v, mods, facts).value, 0) == ids[OldId(v, 0)]
                 && forall c | c in KeyCols(t) && c != 0 :: At(Remap(t, v, mods, facts).value, c) == V(VAt(v, c))
  {
  }

  lemma LandedByKey(table: seq<Row>, t: Table, kind: EntKind, parent: Key, v: SrcRow, row: Row)
    requires 0 in KeyCols(t) && Taken(table, row, KeyCols(t))
    requires At(row, 0) == if kind.Modules? then ModRef(parent) else FactRef(parent)
    requires forall c | c in KeyCols(t) && c != 0 :: At(row, c) == V(VAt(v, c))
    ensures Landed(table, t, kind, parent, v)
  {
    var r :| r in table && Project(r, KeyCols(t)) == Project(row, KeyCols(t));
    SameProjection(r, row, KeyCols(t));
    assert At(r, 0) == At(row, 0);
    forall c | c in KeyCols(t) && c != 0 ensures At(r, c) == V(VAt(v, c)) {
      assert At(r, c) == At(row, c);
    }
  }

  lemma MappedRowLands(table: seq<Row>, src: Source, t: Table, kind: EntKind, v: SrcRow, p: nat)
    requires v in KidRows(src, t) && ParentOf(t) == Some(kind)
    requires DistinctOldIds(EntRows(src, kind)) && p < |EntRows(src, kind)|
    requires OldId(v, 0) == OldId(EntRows(src, kind)[p], 0)
    ensures Landed(KidAfter(table, KidRows(src, t), t, STAGES, 0, ModRefs(src), FactRefs(src)),
                   t, kind, EntKey(kind, EntRows(src, kind)[p]), v)
  {
    var after := KidAfter(table, KidRows(src, t), t, STAGES, 0, ModRefs(src), FactRefs(src));
    SrcKeyIsOwnKey(kind, EntRows(src, kind), p);
    RemapCells(t, kind, v, ModRefs(src), FactRefs(src));
    MappedRowTaken(table, src, t, v);
    LandedByKey(after, t, kind, EntKey(kind, EntRows(src, kind)[p]), v, Remap(t, v, ModRefs(src), FactRefs(src)).value);
  }

  /** After a complete run a child row whose parent was mapped is there under its remapped
      conflict key, and that parent is in the catalog under the same sanitised key. */
  lemma MappedChildLands(db: Db, src: Source, t: Table, kind: EntKind, v: SrcRow, p: nat)
    requires WF(db) && v in KidRows(src, t) && ParentOf(t) == Some(kind)
    requires DistinctOldIds(EntRows(src, kind)) && p < |EntRows(src, kind)|
    requires OldId(v, 0) == OldId(EntRows(src, kind)[p], 0)
    ensures WF(Complete(db, src))
    ensures var after := View(Complete(db, src));
            var parent := EntKey(kind, EntRows(src, kind)[p]);
            && parent in (if kind.Modules? then after.mods else after.facts)
            && Landed(after.kids[t], t, kind, parent, v)
  {
    CompleteNamed(db, src);
    CompleteKid(db, src, t);
    NamedAllHasKeys(kind, if kind.Modules? then View(db).mods else View(db).facts, EntRows(src, kind), p);
    MappedRowLands(View(db).kids[t], src, t, kind, v, p);
  }

  lemma SameProjection(r: Row, s: Row, cols: seq<nat>)
    requires Project(r, cols) == Project(s, cols)
    ensures forall c | c in cols :: At(r, c) == At(s, c)
  {
    forall c | c in cols ensures At(r, c) == At(s, c) {
      var i :| 0 <= i < |cols| && cols[i] == c;
      assert Project(r, cols)[i] == Project(s, cols)[i];
    }
  }

  lemma MappedRowTaken(table: seq<Row>, src: Source, t: Table, v: SrcRow)
    requires v in KidRows(src, t) && Remap(t, v, ModRefs(src), FactRefs(src)).Some?
    ensures Taken(KidAfter(table, KidRows(src, t), t, STAGES, 0, ModRefs(src), FactRefs(src)),
                  Remap(t, v, ModRefs(src), FactRefs(src)).value, KeyCols(t))
  {
    var ops := NamedOps(src, t);
    assert ops[..|ops|] == ops;
    OpsAreRemaps(t, KidRows(src, t), ModRefs(src), FactRefs(src));
    InsertAllCovers(table, ops, KeyCols(t));
  }

  /** r is what the copy sends for some source row of t whose parent, if any, was mapped;
      a dependency's target is a mapped module or NULL */
  ghost predicate SentFrom(src: Source, t: Table, r: Row) {
    exists v | v in KidRows(src, t) ::
      && Remap(t, v, ModRefs(src), FactRefs(src)) == Some(r)
      && (ParentOf(t) == Some(Modules) ==> OldId(v, 0) in SrcRefs(Modules, EntRows(src, Modules)))
      && (ParentOf(t) == Some(Facts) ==> OldId(v, 0) in SrcRefs(Facts, EntRows(src, Facts)))
      && (t == Deps ==> At(r, 2) == V(Null) || At(r, 2).ModRef?)
  }

  lemma RemapIsSent(src: Source, t: Table, v: SrcRow, r: Row)
    requires v in KidRows(src, t) && Remap(t, v, ModRefs(src), FactRefs(src)) == Some(r)
    ensures SentFrom(src, t, r)
  {
  }

  lemma RowsComeFrom(table: seq<Row>, src: Source, t: Table, r: Row)
    requires r in KidAfter(table, KidRows(src, t), t, STAGES, 0, ModRefs(src), FactRefs(src))
    ensures r in table || SentFrom(src, t, r)
  {
    var rows, mr, fr := KidRows(src, t), ModRefs(src), FactRefs(src);
    var ops := Ops(t, rows, mr, fr);
    assert ops[..|ops|] == ops;
    InsertAllCovers(table, ops, KeyCols(t));
    if r !in table {
      OpsAreRemaps(t, rows, mr, fr);
      var v :| v in rows && Remap(t, v, mr, fr) == Some(r);
      RemapIsSent(src, t, v, r);
    }
  }

  /** Nothing else lands: every row of a child table was there before the run or was sent for
      a source row whose parent was mapped. */
  lemma OnlyMappedChildrenLand(db: Db, src: Source, t: Table)
    requires WF(db)
    ensures WF(Complete(db, src))
    ensures forall r | r in View(Complete(db, src)).kids[t] :: r in View(db).kids[t] || SentFrom(src, t, r)
  {
    CompleteKid(db, src, t);
    var after := View(Complete(db, src)).kids[t];
    forall r | r in after ensures r in View(db).kids[t] || SentFrom(src, t, r) {
      RowsComeFrom(View(db).kids[t], src, t, r);
    }
  }
}
