/** The migrator's imperative code against a target that may fail or lose its client at any
    statement. Every method's contract ties the catalog it leaves to MigrationModel.Run, so
    each run, however it ends, is one of the killed runs MigrationProofs quantifies over. */
module MigrationRuntime {
  import opened Basics
  import opened Relational
  import opened MigrationModel
  import opened MigrationLanding

  /** What happens to one statement. A commit that fails, or whose client dies, may still have
      taken effect on the server: durable says so. */
  datatype Fate = Fine | Fail(durable: bool) | Die(durable: bool)

  datatype Outcome = Completed | Failed | Killed

  /** Counts rows and says when to flush; the caller runs the flush. */
  class BatchCounter {
    var n: int
    var count: int
    var since: int

    ghost predicate Valid()
      reads this
    {
      0 < n && 0 <= count && since == count % n
    }

    constructor (size: int)
      ensures Valid() && count == 0 && since == 0
      ensures n == if size <= 0 then 5000 else size
    {
      n := if size <= 0 then 5000 else size;
      count, since := 0, 0;
    }

    method Tick() returns (flush: bool)
      requires Valid()
      modifies this
      ensures Valid() && n == old(n) && count == old(count) + 1
      ensures flush <==> count % n == 0
    {
      ModStep(count, n);
      count := count + 1;
      since := since + 1;
      if since >= n {
        since := 0;
        return true;
      }
      return false;
    }

    method Done() returns (flush: bool)
      requires Valid()
      modifies this
      ensures n == old(n) && count == old(count) && since == 0
      ensures flush <==> count % n != 0
    {
      if since > 0 {
        since := 0;
        return true;
      }
      return false;
    }
  }

  lemma ModStep(c: int, n: int)
    requires 0 <= c && 0 < n
    ensures (c + 1) % n == if c % n + 1 == n then 0 else c % n + 1
  {
    var q, r := c / n, c % n;
    if r + 1 == n {
      assert c + 1 == (q + 1) * n + 0;
      DivMod(q + 1, n, 0);
    } else {
      assert c + 1 == q * n + (r + 1);
      DivMod(q, n, r + 1);
    }
  }

  lemma DivMod(q: int, n: int, r: int)
    requires 0 <= r < n
    ensures (q * n + r) % n == r && (q * n + r) / n == q
  {
    var x := q * n + r;
    assert x == (x / n) * n + x % n;
    if x / n > q { Monotone(q + 1, x / n, n); }
    if x / n < q { Monotone(x / n + 1, q, n); }
  }

  lemma Monotone(a: int, b: int, n: int)
    requires a <= b && 0 <= n
    ensures a * n <= b * n
  {
  }

  /** f full batches and r rows over: the open batch holds r rows, unless r fills it. */
  lemma Batches(f: nat, n: nat, r: nat)
    requires 0 < n && r <= n
    ensures (Filled(f, n) + r) % n == if r == n then 0 else r
    ensures Filled(f + 1, n) == Filled(f, n) + n
  {
    FilledTimes(f, n);
    FilledTimes(f + 1, n);
    if r < n { DivMod(f, n, r); } else { DivMod(f + 1, n, 0); }
  }

  /** One flush per full batch and one for a remainder. */
  lemma FlushCount(f: nat, n: nat, r: nat)
    requires 0 < n && r < n
    ensures (Filled(f, n) + r + n - 1) / n == if r == 0 then f else f + 1
  {
    FilledTimes(f, n);
    if r == 0 {
      DivMod(f, n, n - 1);
    } else {
      assert f * n + r + n - 1 == (f + 1) * n + (r - 1);
      DivMod(f + 1, n, r - 1);
    }
  }

  lemma {:induction false} OpsPrefix(t: Table, rows: seq<SrcRow>, i: nat, mods: map<int, Cell>, facts: map<int, Cell>)
    requires i <= |rows|
    ensures Ops(t, rows[..i], mods, facts) <= Ops(t, rows, mods, facts)
  {
    if i == |rows| {
      assert rows[..i] == rows;
    } else {
      var n := |rows| - 1;
      OpsPrefix(t, rows[..n], i, mods, facts);
      assert rows[..n][..i] == rows[..i];
    }
  }

  lemma OpsStep(t: Table, rows: seq<SrcRow>, i: nat, mods: map<int, Cell>, facts: map<int, Cell>)
    requires i < |rows|
    ensures var row := Remap(t, rows[i], mods, facts);
            Ops(t, rows[..i + 1], mods, facts)
            == if row.Some? then Ops(t, rows[..i], mods, facts) + [row.value] else Ops(t, rows[..i], mods, facts)
  {
    assert rows[..i + 1][..i] == rows[..i];
  }

  /** The first d rows to send are settled once row i is reached. */
  lemma SamePrefix(t: Table, rows: seq<SrcRow>, i: nat, mods: map<int, Cell>, facts: map<int, Cell>, d: nat)
    requires i <= |rows| && d <= |Ops(t, rows[..i], mods, facts)|
    ensures |Ops(t, rows[..i], mods, facts)| <= |Ops(t, rows, mods, facts)|
    ensures Ops(t, rows[..i], mods, facts)[..d] == Ops(t, rows, mods, facts)[..d]
    ensures i < |rows| ==> |Ops(t, rows[..i + 1], mods, facts)| <= |Ops(t, rows, mods, facts)|
  {
    OpsPrefix(t, rows, i, mods, facts);
    if i < |rows| { OpsPrefix(t, rows, i + 1, mods, facts); }
  }

  ghost function Written(db: Db, t: Table, ops: seq<Row>): Db
    requires t in db.kids
  {
    db.(kids := db.kids[t := InsertAll(db.kids[t], ops, KeyCols(t))])
  }

  lemma WrittenNothing(db: Db, t: Table)
    requires t in db.kids
    ensures Written(db, t, []) == db
  {
    assert db.kids[t := db.kids[t]] == db.kids;
  }

  // ---- one stage takes Run(s, 0) to Run(s + 1, 0) ----------------------------------

  /** The id maps a run has in hand once it reached stage s. */
  ghost function ModIds(start: Db, src: Source, s: nat): map<int, Cell>
    requires WF(start)
  {
    EntStage(start.mods, Modules, src, s > MODULES_AT).1
  }

  ghost function FactIds(start: Db, src: Source, s: nat): map<int, Cell>
    requires WF(start)
  {
    EntStage(start.facts, Facts, src, s > FACTS_AT).1
  }

  ghost function OpsAt(start: Db, src: Source, s: nat, t: Table): seq<Row>
    requires WF(start)
  {
    Ops(t, KidRows(src, t), ModIds(start, src, s), FactIds(start, src, s))
  }

  lemma {:induction false} OpsIgnoreFacts(t: Table, rows: seq<SrcRow>, mods: map<int, Cell>,
                                          f: map<int, Cell>, g: map<int, Cell>)
    requires ParentOf(t) != Some(Facts)
    ensures Ops(t, rows, mods, f) == Ops(t, rows, mods, g)
  {
    if rows == [] {
    } else {
      var n := |rows| - 1;
      OpsIgnoreFacts(t, rows[..n], mods, f, g);
    }
  }

  lemma KidUnmoved(table: seq<Row>, rows: seq<SrcRow>, u: Table, s: nat, k: nat, s': nat, k': nat,
                   mods: map<int, Cell>, facts: map<int, Cell>)
    requires forall n: nat :: Durable(u, n, s, k) == Durable(u, n, s', k')
    ensures KidAfter(table, rows, u, s, k, mods, facts) == KidAfter(table, rows, u, s', k', mods, facts)
  {
    assert Durable(u, |Ops(u, rows, mods, facts)|, s, k) == Durable(u, |Ops(u, rows, mods, facts)|, s', k');
  }

  lemma DurableElsewhere(u: Table, s: nat, d: nat)
    requires StageOf(u) != s
    ensures forall n: nat :: Durable(u, n, s, 0) == Durable(u, n, s, d)
    ensures forall n: nat :: Durable(u, n, s, d) == Durable(u, n, s + 1, 0)
  {
  }

  lemma SameStage(t: Table, u: Table)
    requires StageOf(t) == StageOf(u)
    ensures t == u
  {
  }

  lemma OthersUnmoved(table: seq<Row>, rows: seq<SrcRow>, t: Table, u: Table, s: nat, d: nat,
                      mods: map<int, Cell>, facts: map<int, Cell>)
    requires u != t && StageOf(t) == s
    ensures KidAfter(table, rows, u, s, 0, mods, facts) == KidAfter(table, rows, u, s, d, mods, facts)
    ensures KidAfter(table, rows, u, s, d, mods, facts) == KidAfter(table, rows, u, s + 1, 0, mods, facts)
  {
    if StageOf(u) == s { SameStage(t, u); }
    DurableElsewhere(u, s, d);
    KidUnmoved(table, rows, u, s, 0, s, d, mods, facts);
    KidUnmoved(table, rows, u, s, d, s + 1, 0, mods, facts);
  }

  lemma OwnProgress(table: seq<Row>, rows: seq<SrcRow>, t: Table, s: nat, d: nat,
                    mods: map<int, Cell>, facts: map<int, Cell>)
    requires StageOf(t) == s && d <= |Ops(t, rows, mods, facts)|
    ensures KidAfter(table, rows, t, s, 0, mods, facts) == table
    ensures KidAfter(table, rows, t, s, d, mods, facts) == InsertAll(table, Ops(t, rows, mods, facts)[..d], KeyCols(t))
    ensures d == |Ops(t, rows, mods, facts)| ==>
              KidAfter(table, rows, t, s, d, mods, facts) == KidAfter(table, rows, t, s + 1, 0, mods, facts)
  {
    assert Ops(t, rows, mods, facts)[..0] == [];
  }

  lemma MapPut(a: map<Table, seq<Row>>, b: map<Table, seq<Row>>, t: Table)
    requires Full(a) && Full(b) && forall u: Table | u != t :: a[u] == b[u]
    ensures a[t := b[t]] == b
    ensures a[t] == b[t] ==> a == b
  {
  }

  lemma KidsProgress(kids: map<Table, seq<Row>>, src: Source, s: nat, t: Table, d: nat,
                     mods: map<int, Cell>, facts: map<int, Cell>)
    requires Full(kids) && StageOf(t) == s && d <= |Ops(t, KidRows(src, t), mods, facts)|
    ensures var now := KidsAfter(kids, src, s, 0, mods, facts);
            now[t := InsertAll(now[t], Ops(t, KidRows(src, t), mods, facts)[..d], KeyCols(t))]
            == KidsAfter(kids, src, s, d, mods, facts)
  {
    var a, b := KidsAfter(kids, src, s, 0, mods, facts), KidsAfter(kids, src, s, d, mods, facts);
    OwnProgress(kids[t], KidRows(src, t), t, s, d, mods, facts);
    forall u: Table | u != t ensures a[u] == b[u] {
      OthersUnmoved(kids[u], KidRows(src, u), t, u, s, d, mods, facts);
    }
    MapPut(a, b, t);
  }

  lemma KidsDone(kids: map<Table, seq<Row>>, src: Source, s: nat, t: Table,
                 mods: map<int, Cell>, facts: map<int, Cell>)
    requires Full(kids) && StageOf(t) == s
    ensures KidsAfter(kids, src, s, |Ops(t, KidRows(src, t), mods, facts)|, mods, facts)
            == KidsAfter(kids, src, s + 1, 0, mods, facts)
  {
    var d := |Ops(t, KidRows(src, t), mods, facts)|;
    var a, b := KidsAfter(kids, src, s, d, mods, facts), KidsAfter(kids, src, s + 1, 0, mods, facts);
    OwnProgress(kids[t], KidRows(src, t), t, s, d, mods, facts);
    forall u: Table | u != t ensures a[u] == b[u] {
      OthersUnmoved(kids[u], KidRows(src, u), t, u, s, d, mods, facts);
    }
    MapPut(a, b, t);
  }

  /** A parent stage moves no child table. */
  lemma KidsWait(kids: map<Table, seq<Row>>, src: Source, s: nat,
                 mods: map<int, Cell>, facts: map<int, Cell>, facts': map<int, Cell>)
    requires Full(kids) && s <= FACTS_AT && forall t: Table :: StageOf(t) != s
    ensures KidsAfter(kids, src, s, 0, mods, facts) == KidsAfter(kids, src, s + 1, 0, mods, facts')
  {
    var a, b := KidsAfter(kids, src, s, 0, mods, facts), KidsAfter(kids, src, s + 1, 0, mods, facts');
    forall u: Table ensures a[u] == b[u] {
      DurableElsewhere(u, s, 0);
      KidUnmoved(kids[u], KidRows(src, u), u, s, 0, s + 1, 0, mods, facts');
      KidBefore(kids[u], KidRows(src, u), u, s, mods, facts, facts');
    }
  }

  lemma KidBefore(table: seq<Row>, rows: seq<SrcRow>, u: Table, s: nat,
                  mods: map<int, Cell>, f: map<int, Cell>, g: map<int, Cell>)
    requires s <= FACTS_AT
    ensures KidAfter(table, rows, u, s, 0, mods, f) == KidAfter(table, rows, u, s, 0, mods, g)
  {
    if ParentOf(u) != Some(Facts) {
      OpsIgnoreFacts(u, rows, mods, f, g);
    } else {
      assert Ops(u, rows, mods, f)[..0] == [] == Ops(u, rows, mods, g)[..0];
    }
  }

  /** Nothing is copied at stage 0, whatever the id maps. */
  lemma KidsStart(kids: map<Table, seq<Row>>, src: Source, s: nat, mods: map<int, Cell>, facts: map<int, Cell>)
    requires Full(kids) && s <= 1
    ensures KidsAfter(kids, src, s, 0, mods, facts) == kids
  {
    var a := KidsAfter(kids, src, s, 0, mods, facts);
    forall u: Table ensures a[u] == kids[u] {
      assert Durable(u, |Ops(u, KidRows(src, u), mods, facts)|, s, 0) == 0;
    }
  }

  lemma KidProgress(start: Db, src: Source, s: nat, t: Table, d: nat)
    requires WF(start) && StageOf(t) == s && d <= |OpsAt(start, src, s, t)|
    ensures t in Run(start, src, s, 0).kids
    ensures Written(Run(start, src, s, 0), t, OpsAt(start, src, s, t)[..d]) == Run(start, src, s, d)
  {
    KidsProgress(start.kids, src, s, t, d, ModIds(start, src, s), FactIds(start, src, s));
  }

  lemma KidStageDone(start: Db, src: Source, s: nat, t: Table)
    requires WF(start) && StageOf(t) == s
    ensures Run(start, src, s, |OpsAt(start, src, s, t)|) == Run(start, src, s + 1, 0)
  {
    assert ORDER[s] == Kid(t);
    KidsDone(start.kids, src, s, t, ModIds(start, src, s), FactIds(start, src, s));
  }

  lemma ModulesDone(start: Db, src: Source)
    requires WF(start)
    ensures Run(start, src, 0, 0) == start
    ensures start.(mods := EntAll(Modules, start.mods, EntRows(src, Modules)).0) == Run(start, src, 1, 0)
  {
    KidsStart(start.kids, src, 0, ModIds(start, src, 0), FactIds(start, src, 0));
    KidsStart(start.kids, src, 1, ModIds(start, src, 1), FactIds(start, src, 1));
  }

  lemma NoKidAtFacts(t: Table)
    ensures StageOf(t) != FACTS_AT
  {
  }

  lemma FactsKids(start: Db, src: Source)
    requires WF(start)
    ensures Run(start, src, FACTS_AT, 0).kids == Run(start, src, FACTS_AT + 1, 0).kids
  {
    forall t: Table ensures StageOf(t) != FACTS_AT { NoKidAtFacts(t); }
    KidsWait(start.kids, src, FACTS_AT, ModIds(start, src, FACTS_AT),
             FactIds(start, src, FACTS_AT), FactIds(start, src, FACTS_AT + 1));
  }

  lemma FactsDone(start: Db, src: Source)
    requires WF(start)
    ensures Run(start, src, FACTS_AT, 0).facts == start.facts
    ensures Run(start, src, FACTS_AT, 0).(facts := EntAll(Facts, start.facts, EntRows(src, Facts)).0)
            == Run(start, src, FACTS_AT + 1, 0)
  {
    FactsKids(start, src);
  }

  lemma KillWithoutGap(start: Db, src: Source, s: nat, k: nat)
    requires WF(start)
    ensures AfterKill(start, src, Kill(s, k, 0, 0)) == Run(start, src, s, k)
  {
  }

  /** The catalog a child stage leaves, as the end of a killed run. */
  lemma KidStageEnds(start: Db, src: Source, s: nat, t: Table, d: nat)
    requires WF(start) && StageOf(t) == s && d <= |OpsAt(start, src, s, t)|
    ensures t in Run(start, src, s, 0).kids
    ensures Written(Run(start, src, s, 0), t, OpsAt(start, src, s, t)[..d]) == AfterKill(start, src, Kill(s, d, 0, 0))
    ensures d == |OpsAt(start, src, s, t)| ==>
              AfterKill(start, src, Kill(s, d, 0, 0)) == AfterKill(start, src, Kill(s + 1, 0, 0, 0))
  {
    KidProgress(start, src, s, t, d);
    KidStageDone(start, src, s, t);
    KillWithoutGap(start, src, s, d);
    KillWithoutGap(start, src, s + 1, 0);
  }

  lemma StageIsOf(s: nat, t: Table)
    requires s < STAGES && ORDER[s] == Kid(t)
    ensures StageOf(t) == s
  {
  }

  lemma ChildStage(s: nat, t: Table)
    requires StageOf(t) == s
    ensures s != MODULES_AT && s != FACTS_AT
  {
  }

  lemma OnlyFactsLeft(s: nat)
    requires 1 <= s < STAGES && ORDER[s].Ents?
    ensures s == FACTS_AT
  {
  }

  lemma LaterIds(start: Db, src: Source, s: nat)
    requires WF(start) && 1 <= s
    ensures ModIds(start, src, s) == ModIds(start, src, 1)
  {
  }

  lemma SameIds(start: Db, src: Source, s: nat)
    requires WF(start) && s != MODULES_AT && s != FACTS_AT
    ensures ModIds(start, src, s + 1) == ModIds(start, src, s)
    ensures FactIds(start, src, s + 1) == FactIds(start, src, s)
  {
  }

  lemma AtChild(start: Db, src: Source, s: nat, t: Table)
    requires WF(start) && s < STAGES && ORDER[s] == Kid(t)
    ensures StageOf(t) == s && FactIds(start, src, s + 1) == FactIds(start, src, s)
  {
    StageIsOf(s, t);
    ChildStage(s, t);
    SameIds(start, src, s);
  }

  /** One migrator process and the catalog it writes. pending is the child table as the open
      transaction sees it. */
  class Migrator {
    var db: Db
    var pending: seq<Row>
    var inTx: bool
    const fate: nat -> Fate
    var clock: nat

    constructor (db: Db, fate: nat -> Fate)
      ensures this.db == db && !inTx
    {
      this.db, this.pending, this.inTx, this.clock := db, [], false, 0;
      this.fate := fate;
    }

    /** The target and the process stay up throughout. */
    ghost predicate AllFine() {
      forall i: nat :: fate(i).Fine?
    }

    method Statement() returns (f: Fate)
      modifies this`clock
      ensures AllFine() ==> f.Fine?
    {
      f := fate(clock);
      clock := clock + 1;
    }

    // ---- batchedInTx ---------------------------------------------------------------

    method Begin(t: Table) returns (out: Outcome)
      requires t in db.kids
      modifies this`clock, this`inTx, this`pending
      ensures AllFine() ==> out.Completed?
      ensures out.Completed? ==> inTx && pending == db.kids[t]
      ensures !out.Completed? ==> !inTx
    {
      var f := Statement();
      inTx := f.Fine?;
      pending := db.kids[t];
      out := if f.Fine? then Completed else if f.Fail? then Failed else Killed;
    }

    /** wrote says whether the open transaction's rows reached the catalog. */
    method Commit(t: Table) returns (out: Outcome, wrote: bool)
      requires inTx
      modifies this
      ensures AllFine() ==> out.Completed?
      ensures !inTx
      ensures out.Completed? ==> wrote
      ensures db == if wrote then old(db).(kids := old(db).kids[t := old(pending)]) else old(db)
    {
      var f := Statement();
      wrote := f.Fine? || f.durable;
      if wrote { db := db.(kids := db.kids[t := pending]); }
      inTx := false;
      out := if f.Fine? then Completed else if f.Fail? then Failed else Killed;
    }

    /** ops have been sent since start, the first `durable` of them are committed and the open
        transaction holds the rest. */
    ghost predicate Midway(start: Db, t: Table, ops: seq<Row>, durable: nat)
      reads this
    {
      && inTx && t in start.kids && durable <= |ops|
      && pending == InsertAll(start.kids[t], ops, KeyCols(t))
      && db == Written(start, t, ops[..durable])
    }

    /** stmt().Exec: on an error or a kill the server drops the open transaction. */
    method Exec(ghost start: Db, t: Table, ghost ops: seq<Row>, ghost durable: nat, row: Row) returns (out: Outcome)
      requires Midway(start, t, ops, durable)
      modifies this
      ensures AllFine() ==> out.Completed?
      ensures db == old(db)
      ensures if out.Completed? then Midway(start, t, ops + [row], durable) else !inTx
    {
      var f := Statement();
      if f.Fine? {
        pending := Insert(pending, row, KeyCols(t));
        assert (ops + [row])[..|ops|] == ops;
        assert (ops + [row])[..durable] == ops[..durable];
        return Completed;
      }
      inTx := false;
      out := if f.Fail? then Failed else Killed;
    }

    /** Commits what Midway describes. */
    method CommitAll(ghost start: Db, t: Table, ghost ops: seq<Row>, ghost durable: nat)
      returns (out: Outcome, wrote: bool)
      requires Midway(start, t, ops, durable)
      modifies this
      ensures AllFine() ==> out.Completed?
      ensures !inTx && (out.Completed? ==> wrote)
      ensures db == if wrote then Written(start, t, ops) else Written(start, t, ops[..durable])
    {
      out, wrote := Commit(t);
    }

    /** The counter's flush: commit, then open the next transaction. */
    method Flush(ghost start: Db, t: Table, ghost ops: seq<Row>, ghost durable: nat) returns (out: Outcome, wrote: bool)
      requires Midway(start, t, ops, durable)
      modifies this
      ensures AllFine() ==> out.Completed?
      ensures db == if wrote then Written(start, t, ops) else Written(start, t, ops[..durable])
      ensures if out.Completed? then wrote && Midway(start, t, ops, |ops|) else !inTx
    {
      out, wrote := CommitAll(start, t, ops, durable);
      assert ops[..|ops|] == ops;
      if out.Completed? { out := Begin(t); }
    }

    /** The loop's state: all but an unfinished batch of ops is committed. */
    ghost predicate Batching(start: Db, t: Table, ops: seq<Row>, durable: nat, flushes: nat, bc: BatchCounter)
      reads this, bc
    {
      && bc.Valid() && bc.count == |ops|
      && durable == Filled(flushes, bc.n) && durable <= |ops| < durable + bc.n
      && Midway(start, t, ops, durable)
    }

    /** tick(): count the row just sent and flush when the batch is full. */
    method Tick(ghost start: Db, t: Table, ghost now: seq<Row>, bc: BatchCounter, durable0: nat, flushes0: nat)
      returns (out: Outcome, durable: nat, flushes: nat)
      requires bc.Valid() && bc.count + 1 == |now|
      requires durable0 == Filled(flushes0, bc.n) && durable0 < |now| <= durable0 + bc.n
      requires Midway(start, t, now, durable0)
      modifies this, bc
      ensures AllFine() ==> out.Completed?
      ensures bc.n == old(bc.n) && durable == Filled(flushes, bc.n)
      ensures durable <= |now| <= durable + bc.n
      ensures db == Written(start, t, now[..durable])
      ensures if out.Completed? then Batching(start, t, now, durable, flushes, bc) else !inTx
    {
      durable, flushes, out := durable0, flushes0, Completed;
      Batches(flushes, bc.n, bc.count + 1 - durable);
      var flush := bc.Tick();
      if flush {
        var wrote;
        out, wrote := Flush(start, t, now, durable);
        assert now[..|now|] == now;
        if wrote { durable := bc.count; flushes := flushes + 1; }
      }
    }

    /** One row through the body of the copy: send, then tick. */
    method SendRow(ghost start: Db, t: Table, ghost ops: seq<Row>, row: Row, bc: BatchCounter,
                   durable0: nat, flushes0: nat)
      returns (out: Outcome, durable: nat, flushes: nat, sent: bool)
      requires Batching(start, t, ops, durable0, flushes0, bc)
      modifies this, bc
      ensures AllFine() ==> out.Completed?
      ensures bc.n == old(bc.n) && durable == Filled(flushes, bc.n)
      ensures durable <= |ops| + (if sent then 1 else 0) <= durable + bc.n
      ensures db == Written(start, t, (ops + [row])[..durable])
      ensures if out.Completed? then sent && Batching(start, t, ops + [row], durable, flushes, bc) else !inTx
    {
      durable, flushes, sent := durable0, flushes0, false;
      assert (ops + [row])[..durable] == ops[..durable];
      out := Exec(start, t, ops, durable, row);
      if out.Completed? {
        sent := true;
        out, durable, flushes := Tick(start, t, ops + [row], bc, durable, flushes);
      }
    }

    /** The body of the copy over all scanned rows; an unmapped parent's row is passed over. */
    method SendAll(ghost start: Db, t: Table, rows: seq<SrcRow>, mods: map<int, Cell>, facts: map<int, Cell>,
                   bc: BatchCounter)
      returns (out: Outcome, durable: nat, sent: nat, flushes: nat)
      requires Batching(start, t, [], 0, 0, bc)
      modifies this, bc
      ensures AllFine() ==> out.Completed?
      ensures bc.n == old(bc.n)
      ensures durable <= sent <= |Ops(t, rows, mods, facts)|
      ensures sent - durable <= bc.n && durable == Filled(flushes, bc.n)
      ensures db == Written(start, t, Ops(t, rows, mods, facts)[..durable])
      ensures if out.Completed? then
                && sent == |Ops(t, rows, mods, facts)|
                && Batching(start, t, Ops(t, rows, mods, facts), durable, flushes, bc)
              else !inTx
    {
      durable, sent, flushes, out := 0, 0, 0, Completed;
      var i := 0;
      ghost var now: seq<Row> := [];
      while i < |rows|
        invariant 0 <= i <= |rows|
        invariant out.Completed? && bc.n == old(bc.n)
        invariant now == Ops(t, rows[..i], mods, facts) && sent == |now|
        invariant Batching(start, t, now, durable, flushes, bc)
      {
        OpsStep(t, rows, i, mods, facts);
        var row := Remap(t, rows[i], mods, facts);
        i := i + 1;
        if row.None? { continue; }
        var ok;
        out, durable, flushes, ok := SendRow(start, t, now, row.value, bc, durable, flushes);
        now := now + [row.value];
        if ok { sent := sent + 1; }
        SamePrefix(t, rows, i, mods, facts, durable);
        if !out.Completed? { return; }
      }
      assert rows[..i] == rows;
    }

    /** bc.done() and the final commit. */
    method Finish(ghost start: Db, t: Table, ghost ops: seq<Row>, done: nat, bc: BatchCounter)
      returns (out: Outcome, wrote: bool, extra: nat)
      requires bc.Valid() && bc.count == |ops| && Midway(start, t, ops, done)
      modifies this, bc
      ensures AllFine() ==> out.Completed?
      ensures bc.n == old(bc.n) && !inTx
      ensures db == if wrote then Written(start, t, ops) else Written(start, t, ops[..done])
      ensures out.Completed? ==> wrote && extra == if |ops| % bc.n != 0 then 1 else 0
    {
      extra := 0;
      var flush := bc.Done();
      if flush {
        out, wrote := Flush(start, t, ops, done);
        extra := 1;
        if !out.Completed? { return; }
        var again;
        out, again := CommitAll(start, t, ops, |ops|);
        assert ops[..|ops|] == ops;
        return;
      }
      out, wrote := CommitAll(start, t, ops, done);
    }

    /** The batched copy once its first transaction is open. */
    method CopyRows(ghost start: Db, t: Table, rows: seq<SrcRow>, mods: map<int, Cell>, facts: map<int, Cell>,
                    bc: BatchCounter)
      returns (out: Outcome, durable: nat, sent: nat, flushes: nat)
      requires Batching(start, t, [], 0, 0, bc)
      modifies this, bc
      ensures AllFine() ==> out.Completed?
      ensures !inTx && bc.n == old(bc.n) > 0
      ensures durable <= sent <= |Ops(t, rows, mods, facts)|
      ensures db == Written(start, t, Ops(t, rows, mods, facts)[..durable])
      ensures durable % bc.n == 0 || durable == |Ops(t, rows, mods, facts)|
      ensures sent - durable <= bc.n
      ensures out.Completed? ==> durable == |Ops(t, rows, mods, facts)| && flushes == (sent + bc.n - 1) / bc.n
    {
      ghost var ops := Ops(t, rows, mods, facts);
      out, durable, sent, flushes := SendAll(start, t, rows, mods, facts, bc);
      Batches(flushes, bc.n, 0);
      if out.Completed? {
        Batches(flushes, bc.n, sent - durable);
        FlushCount(flushes, bc.n, sent - durable);
        var wrote, extra;
        out, wrote, extra := Finish(start, t, ops, durable, bc);
        assert ops[..sent] == ops;
        if wrote { durable := sent; }
        flushes := flushes + extra;
      }
    }

    /** Copies a child table in committed batches of `batch` rows. Whatever happens, the
        catalog gains exactly a prefix of the rows to send, cut at a batch boundary unless it
        is all of them; at most one batch of sent rows is lost; success means everything is
        committed, nothing is left open, and the flush ran once per started batch. */
    method BatchedInTx(t: Table, rows: seq<SrcRow>, mods: map<int, Cell>, facts: map<int, Cell>, batch: int)
      returns (out: Outcome, durable: nat, sent: nat, flushes: nat)
      requires t in db.kids
      modifies this
      ensures AllFine() ==> out.Completed?
      ensures !inTx
      ensures durable <= sent <= |Ops(t, rows, mods, facts)|
      ensures db == Written(old(db), t, Ops(t, rows, mods, facts)[..durable])
      ensures var n := if batch <= 0 then 5000 else batch;
              && (durable % n == 0 || durable == |Ops(t, rows, mods, facts)|)
              && sent - durable <= n
              && (out.Completed? ==> durable == |Ops(t, rows, mods, facts)| && flushes == (sent + n - 1) / n)
    {
      ghost var start := db;
      durable, sent, flushes := 0, 0, 0;
      var bc := new BatchCounter(batch);
      WrittenNothing(start, t);
      out := Begin(t);
      if out.Completed? {
        out, durable, sent, flushes := CopyRows(start, t, rows, mods, facts, bc);
      } else {
        Batches(0, bc.n, 0);
      }
    }

    // ---- copyModules and copyAppFacts -----------------------------------------------

    ghost predicate Sending(kind: EntKind, start: EntTable, rows: seq<SrcRow>, i: nat, tab: EntTable,
                            ids: map<int, Cell>)
    {
      && EntWF(start) && i <= |rows|
      && (tab, ids) == EntAll(kind, start, rows[..i])
    }

    /** One row: the insert and, for a fact already there, the lookup of its id. */
    method SendEnt(kind: EntKind, ghost start: EntTable, rows: seq<SrcRow>, i: nat, tab: EntTable, ids: map<int, Cell>)
      returns (out: Outcome, tab': EntTable, ids': map<int, Cell>)
      requires i < |rows| && Sending(kind, start, rows, i, tab, ids)
      modifies this`clock
      ensures AllFine() ==> out.Completed?
      ensures EntWF(tab') && tab.next <= tab'.next
      ensures out.Completed? ==> Sending(kind, start, rows, i + 1, tab', ids')
    {
      assert rows[..i + 1][..i] == rows[..i];
      tab', ids' := tab, ids;
      var f := Statement();
      if !f.Fine? { return if f.Fail? then Failed else Killed, tab', ids'; }
      var (after, id) := EntPut(kind, tab, rows[i]);
      var returned := kind.Modules? || EntKey(kind, rows[i]) !in tab.byKey;
      tab' := after;
      if !returned {
        f := Statement();
        if !f.Fine? { return if f.Fail? then Failed else Killed, tab', ids'; }
      }
      ids' := ids[OldId(rows[i], 0) := IdCell(kind, id)];
      out := Completed;
    }

    /** The scan of a parent table inside its transaction. */
    method SendEnts(kind: EntKind, table: EntTable, rows: seq<SrcRow>)
      returns (out: Outcome, tab: EntTable, ids: map<int, Cell>)
      requires EntWF(table)
      modifies this`clock
      ensures AllFine() ==> out.Completed?
      ensures table.next <= tab.next
      ensures out.Completed? ==> (tab, ids) == EntAll(kind, table, rows)
    {
      out, tab, ids := Completed, table, map[];
      var i := 0;
      while i < |rows|
        invariant 0 <= i <= |rows| && out.Completed?
        invariant Sending(kind, table, rows, i, tab, ids) && table.next <= tab.next
      {
        out, tab, ids := SendEnt(kind, table, rows, i, tab, ids);
        if !out.Completed? { return; }
        i := i + 1;
      }
      assert rows[..i] == rows;
    }

    /** Copies modules or app_facts in one transaction and returns the old id -> new id map.
        Unless it commits, the table keeps its rows and only the identity sequence moves on. */
    method CopyEnts(kind: EntKind, table: EntTable, rows: seq<SrcRow>)
      returns (out: Outcome, wrote: bool, after: EntTable, ids: map<int, Cell>, burnt: nat)
      requires EntWF(table)
      modifies this`clock
      ensures AllFine() ==> out.Completed?
      ensures out.Completed? ==> wrote
      ensures wrote ==> (after, ids) == EntAll(kind, table, rows)
      ensures !wrote ==> after == table.(next := table.next + burnt)
    {
      wrote, after, ids, burnt := false, table, map[], 0;
      var f := Statement();
      if !f.Fine? { return if f.Fail? then Failed else Killed, wrote, after, ids, burnt; }
      var tab;
      out, tab, ids := SendEnts(kind, table, rows);
      burnt := tab.next - table.next;
      if out.Completed? {
        f := Statement();
        wrote := f.Fine? || f.durable;
        out := if f.Fine? then Completed else if f.Fail? then Failed else Killed;
      }
      after := if wrote then tab else table.(next := table.next + burnt);
    }

    // ---- the nine stages ------------------------------------------------------------

    /** The run begun at start got to stage s. */
    ghost predicate AtStage(start: Db, src: Source, s: nat)
      reads this
    {
      WF(start) && s <= STAGES && db == Run(start, src, s, 0)
    }

    method ModulesStage(ghost start: Db, src: Source) returns (out: Outcome, ids: map<int, Cell>, kill: Kill)
      requires WF(start) && db == start
      modifies this
      ensures AllFine() ==> out.Completed?
      ensures db == AfterKill(start, src, kill)
      ensures out.Completed? ==> kill == Kill(1, 0, 0, 0) && ids == ModIds(start, src, 1)
    {
      var wrote, after, burnt;
      out, wrote, after, ids, burnt := CopyEnts(Modules, db.mods, EntRows(src, Modules));
      ModulesDone(start, src);
      KillWithoutGap(start, src, 1, 0);
      db := db.(mods := after);
      kill := if wrote then Kill(1, 0, 0, 0) else Kill(0, 0, burnt, 0);
    }

    method FactsStage(ghost start: Db, src: Source) returns (out: Outcome, ids: map<int, Cell>, kill: Kill)
      requires AtStage(start, src, FACTS_AT)
      modifies this
      ensures AllFine() ==> out.Completed?
      ensures db == AfterKill(start, src, kill)
      ensures out.Completed? ==> kill == Kill(FACTS_AT + 1, 0, 0, 0) && ids == FactIds(start, src, FACTS_AT + 1)
    {
      var wrote, after, burnt;
      FactsDone(start, src);
      out, wrote, after, ids, burnt := CopyEnts(Facts, db.facts, EntRows(src, Facts));
      KillWithoutGap(start, src, FACTS_AT + 1, 0);
      db := db.(facts := after);
      kill := if wrote then Kill(FACTS_AT + 1, 0, 0, 0) else Kill(FACTS_AT, 0, 0, burnt);
    }

    method KidStage(ghost start: Db, src: Source, s: nat, t: Table, mods: map<int, Cell>, facts: map<int, Cell>,
                    batch: int)
      returns (out: Outcome, kill: Kill)
      requires StageOf(t) == s && AtStage(start, src, s)
      requires mods == ModIds(start, src, s) && facts == FactIds(start, src, s)
      modifies this
      ensures AllFine() ==> out.Completed?
      ensures db == AfterKill(start, src, kill)
      ensures out.Completed? ==> kill == Kill(s + 1, 0, 0, 0)
    {
      KidProgress(start, src, s, t, 0);
      var durable, sent, flushes;
      out, durable, sent, flushes := BatchedInTx(t, KidRows(src, t), mods, facts, batch);
      KidStageEnds(start, src, s, t, durable);
      kill := if out.Completed? then Kill(s + 1, 0, 0, 0) else Kill(s, durable, 0, 0);
    }

    /** Stage s, whichever it is; facts is replaced by the facts stage. */
    method NextStage(ghost start: Db, src: Source, s: nat, mods: map<int, Cell>, facts: map<int, Cell>, batch: int)
      returns (out: Outcome, facts': map<int, Cell>, kill: Kill)
      requires 1 <= s < STAGES && AtStage(start, src, s)
      requires mods == ModIds(start, src, s) && facts == FactIds(start, src, s)
      modifies this
      ensures AllFine() ==> out.Completed?
      ensures db == AfterKill(start, src, kill)
      ensures out.Completed? ==> kill == Kill(s + 1, 0, 0, 0) && facts' == FactIds(start, src, s + 1)
    {
      match ORDER[s]
      case Kid(t) =>
        facts' := facts;
        AtChild(start, src, s, t);
        out, kill := KidStage(start, src, s, t, mods, facts, batch);
      case Ents(_) =>
        OnlyFactsLeft(s);
        out, facts', kill := FactsStage(start, src);
    }

    /** The later stages, one after the other, until one fails. */
    method Stages(ghost start: Db, src: Source, mods: map<int, Cell>, batch: int) returns (out: Outcome, kill: Kill)
      requires WF(start) && db == AfterKill(start, src, Kill(1, 0, 0, 0)) && mods == ModIds(start, src, 1)
      modifies this
      ensures AllFine() ==> out.Completed?
      ensures db == AfterKill(start, src, kill)
      ensures out.Completed? ==> kill == Kill(STAGES, 0, 0, 0)
    {
      var s, facts: map<int, Cell> := 1, map[];
      out, kill := Completed, Kill(1, 0, 0, 0);
      while s < STAGES
        invariant 1 <= s <= STAGES && out.Completed? && kill == Kill(s, 0, 0, 0)
        invariant db == AfterKill(start, src, kill)
        invariant facts == FactIds(start, src, s)
      {
        KillWithoutGap(start, src, s, 0);
        LaterIds(start, src, s);
        out, facts, kill := NextStage(start, src, s, mods, facts, batch);
        s := s + 1;
        if !out.Completed? { return; }
      }
    }

    /** The whole command. However it ends, the catalog it leaves is that of one killed run of
        MigrationProofs; success means the complete run. */
    method Migrate(src: Source, batch: int) returns (out: Outcome, kill: Kill)
      requires WF(db)
      modifies this
      ensures AllFine() ==> out.Completed?
      ensures db == AfterKill(old(db), src, kill)
      ensures out.Completed? ==> kill == Kill(STAGES, 0, 0, 0) && Migrated(src, old(db), db)
    {
      ghost var start := db;
      var mods;
      out, mods, kill := ModulesStage(start, src);
      if out.Completed? {
        out, kill := Stages(start, src, mods, batch);
      }
      CompleteMigrates(start, src);
    }
  }
}
