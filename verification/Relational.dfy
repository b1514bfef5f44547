/** Rows, keys and the one statement every batched copy runs:
    INSERT ... ON CONFLICT (key) DO NOTHING. A table is the sequence of its rows in
    insertion order. */
module Relational {
  import opened Utf8


  /** A value as the drivers hand it over. */
  datatype Val = Null | Int(i: int) | Real(r: real) | Text(t: Bytes) | Blob(b: Bytes)

  /** A stored cell. Generated ids are told apart from plain values; the Ref forms name
      the same parent by its unique key instead, for comparing tables up to renaming of ids. */
  datatype Cell =
    | V(v: Val)
    | ModId(id: nat)
    | FactId(id: nat)
    | ModRef(key: seq<Val>)
    | FactRef(key: seq<Val>)

  type Row = seq<Cell>

  /** Position i of a row; a missing position reads as NULL. */
  function At(row: Row, i: nat): Cell {
    if i < |row| then row[i] else V(Null)
  }

  function Project(row: Row, cols: seq<nat>): (key: Row)
    ensures |key| == |cols| && forall i | 0 <= i < |cols| :: key[i] == At(row, cols[i])
  {
    seq(|cols|, i requires 0 <= i < |cols| => At(row, cols[i]))
  }

  /** A NULL in a unique key makes the row distinct from every other row. */
  predicate NullKey(row: Row, cols: seq<nat>) {
    V(Null) in Project(row, cols)
  }

  predicate Taken(table: seq<Row>, row: Row, cols: seq<nat>) {
    exists r | r in table :: Project(r, cols) == Project(row, cols)
  }

  function Insert(table: seq<Row>, row: Row, cols: seq<nat>): seq<Row> {
    if !NullKey(row, cols) && Taken(table, row, cols) then table else table + [row]
  }

  function InsertAll(table: seq<Row>, rows: seq<Row>, cols: seq<nat>): (out: seq<Row>)
    ensures table <= out
  {
    if rows == [] then table
    else
      var n := |rows| - 1;
      Insert(InsertAll(table, rows[..n], cols), rows[n], cols)
  }

  predicate NoNullKeys(rows: seq<Row>, cols: seq<nat>) {
    forall r | r in rows :: !NullKey(r, cols)
  }

  lemma {:induction false} InsertAllConcat(t: seq<Row>, a: seq<Row>, b: seq<Row>, cols: seq<nat>)
    ensures InsertAll(t, a + b, cols) == InsertAll(InsertAll(t, a, cols), b, cols)
  {
    if b == [] {
      assert a + b == a;
    } else {
      var n := |b| - 1;
      assert (a + b)[..|a + b| - 1] == a + b[..n];
      InsertAllConcat(t, a, b[..n], cols);
    }
  }

  /** Every row sent finds its key in the table afterwards, and every row of the
      table was there before or was sent. */
  lemma {:induction false} InsertAllCovers(t: seq<Row>, rows: seq<Row>, cols: seq<nat>)
    ensures forall r | r in rows :: Taken(InsertAll(t, rows, cols), r, cols)
    ensures forall r | r in InsertAll(t, rows, cols) :: r in t || r in rows
  {
    if rows == [] {
    } else {
      var n := |rows| - 1;
      var before := InsertAll(t, rows[..n], cols);
      var after := InsertAll(t, rows, cols);
      InsertAllCovers(t, rows[..n], cols);
      assert Taken(after, rows[n], cols) by {
        if after == before + [rows[n]] { assert rows[n] in after; }
      }
      forall r | r in rows ensures Taken(after, r, cols) {
        if r in rows[..n] {
          var w :| w in before && Project(w, cols) == Project(r, cols);
          assert w in after;
        }
      }
      assert forall r | r in rows[..n] :: r in rows;
    }
  }

  /** Rows whose keys are all present change nothing. */
  lemma {:induction false} InsertAllAbsorbs(t: seq<Row>, rows: seq<Row>, cols: seq<nat>)
    requires NoNullKeys(rows, cols)
    requires forall r | r in rows :: Taken(t, r, cols)
    ensures InsertAll(t, rows, cols) == t
  {
    if rows == [] {
    } else {
      var n := |rows| - 1;
      assert rows[n] in rows;
      InsertAllAbsorbs(t, rows[..n], cols);
    }
  }

  /** Replaying a list whose prefix a is already in gives what one pass gives. */
  lemma ReplayIsOnePass(t: seq<Row>, a: seq<Row>, b: seq<Row>, cols: seq<nat>)
    requires NoNullKeys(a, cols)
    ensures InsertAll(InsertAll(t, a, cols), a + b, cols) == InsertAll(t, a + b, cols)
  {
    var t1 := InsertAll(t, a, cols);
    InsertAllCovers(t, a, cols);
    InsertAllAbsorbs(t1, a, cols);
    InsertAllConcat(t1, a, b, cols);
    InsertAllConcat(t, a, b, cols);
  }

  /** A row with a NULL key is appended again by every pass. */
  lemma {:induction false} NullKeyDuplicates(t: seq<Row>, rows: seq<Row>, r: Row, cols: seq<nat>)
    requires r in rows && NullKey(r, cols)
    ensures |InsertAll(t, rows, cols)| > |t|
  {
    var n := |rows| - 1;
    if rows[n] == r {
    } else {
      NullKeyDuplicates(t, rows[..n], r, cols);
    }
  }
}
