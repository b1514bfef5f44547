/** kb search: the ranked query, its cursor predicate and the pages a client gets by following
    next_cursor. Similarity is a real number and a cursor its decoded token. */
module KeysetSearch {
  import opened Basics

  datatype Row = Row(sim: real, capturedAt: int, id: int, name: string)

  datatype Cursor = Cursor(sim: real, capturedAt: int, id: int)

  function KeyOf(r: Row): Cursor {
    Cursor(r.sim, r.capturedAt, r.id)
  }

  // ---- the plain sorted list ------------------------------------------------------------

  /** sim descending, then captured_at descending, then id ascending: a before b. */
  predicate Precedes(a: Cursor, b: Cursor) {
    if a.sim != b.sim then a.sim > b.sim
    else if a.capturedAt != b.capturedAt then a.capturedAt > b.capturedAt
    else a.id < b.id
  }

  predicate Sorted(rows: seq<Row>) {
    forall i, j | 0 <= i < j < |rows| :: !Precedes(KeyOf(rows[j]), KeyOf(rows[i]))
  }

  predicate DistinctKeys(rows: seq<Row>) {
    forall i, j | 0 <= i < j < |rows| :: KeyOf(rows[i]) != KeyOf(rows[j])
  }

  predicate OrderedAt(rows: seq<Row>, i: nat, j: nat)
    requires i < |rows| && j < |rows|
  {
    i < j ==> Precedes(KeyOf(rows[i]), KeyOf(rows[j]))
  }

  predicate StrictlySorted(rows: seq<Row>) {
    forall i, j | 0 <= i < |rows| && 0 <= j < |rows| :: OrderedAt(rows, i, j)
  }

  lemma Total(a: Cursor, b: Cursor)
    ensures Precedes(a, b) || Precedes(b, a) || a == b
    ensures !(Precedes(a, b) && Precedes(b, a))
  {
  }

  lemma StrictIffDistinct(rows: seq<Row>)
    requires Sorted(rows)
    ensures StrictlySorted(rows) <==> DistinctKeys(rows)
  {
    forall i, j | 0 <= i < j < |rows|
      ensures Precedes(KeyOf(rows[i]), KeyOf(rows[j])) <==> KeyOf(rows[i]) != KeyOf(rows[j])
    {
      Total(KeyOf(rows[i]), KeyOf(rows[j]));
    }
    if StrictlySorted(rows) {
      forall i, j | 0 <= i < j < |rows| ensures KeyOf(rows[i]) != KeyOf(rows[j]) { assert OrderedAt(rows, i, j); }
    }
  }

  // ---- the query ----------------------------------------------------------------------------

  /** The predicate the WHERE clause adds for a cursor. */
  predicate PastCursor(r: Row, c: Option<Cursor>) {
    c.None?
    || r.sim < c.value.sim
    || (r.sim == c.value.sim
        && (r.capturedAt < c.value.capturedAt || (r.capturedAt == c.value.capturedAt && r.id > c.value.id)))
  }

  /** It selects exactly the rows the sort order puts after the cursor's row. */
  lemma PastCursorIsOrder(r: Row, c: Cursor)
    ensures PastCursor(r, Some(c)) <==> Precedes(c, KeyOf(r))
  {
  }

  function Past(rows: seq<Row>, c: Option<Cursor>): (out: seq<Row>)
    ensures |out| <= |rows|
  {
    if rows == [] then []
    else Past(rows[..|rows| - 1], c) + if PastCursor(rows[|rows| - 1], c) then [rows[|rows| - 1]] else []
  }

  function Take(rows: seq<Row>, n: nat): seq<Row> {
    if n <= |rows| then rows[..n] else rows
  }

  /** The ranked query over the sorted matches. */
  function Ranked(sorted: seq<Row>, c: Option<Cursor>, limit: nat): seq<Row> {
    Take(Past(sorted, c), limit)
  }

  lemma {:induction false} PastNone(rows: seq<Row>)
    ensures Past(rows, None) == rows
  {
    if rows == [] {
    } else {
      PastNone(rows[..|rows| - 1]);
    }
  }

  lemma PastOne(rows: seq<Row>, i: nat, j: nat)
    requires i < |rows| && j < |rows| && OrderedAt(rows, i, j) && OrderedAt(rows, j, i)
    ensures PastCursor(rows[j], Some(KeyOf(rows[i]))) <==> i < j
  {
  }

  /** In a strictly sorted list the rows past row i are the rows from i + 1 on. */
  lemma {:induction false} PastIsSuffix(rows: seq<Row>, n: nat, i: nat)
    requires i < |rows| && n <= |rows| && forall j | 0 <= j < |rows| :: OrderedAt(rows, i, j) && OrderedAt(rows, j, i)
    ensures Past(rows[..n], Some(KeyOf(rows[i]))) == if n <= i then [] else rows[i + 1..n]
  {
    if n == 0 {
    } else {
      PastIsSuffix(rows, n - 1, i);
      assert rows[..n][..n - 1] == rows[..n - 1];
      PastOne(rows, i, n - 1);
    }
  }

  lemma PastAfter(rows: seq<Row>, i: nat)
    requires StrictlySorted(rows) && i < |rows|
    ensures Past(rows, Some(KeyOf(rows[i]))) == rows[i + 1..]
  {
    forall j | 0 <= j < |rows| ensures OrderedAt(rows, i, j) && OrderedAt(rows, j, i) {
    }
    PastIsSuffix(rows, |rows|, i);
    assert rows[..|rows|] == rows;
  }

  // ---- following cursors ----------------------------------------------------------------------

  lemma {:induction false} PastShrinks(rows: seq<Row>, c: Option<Cursor>, last: Row)
    requires PastCursor(last, c)
    ensures |Past(rows, Some(KeyOf(last)))| <= |Past(rows, c)|
    ensures last in rows ==> |Past(rows, Some(KeyOf(last)))| < |Past(rows, c)|
  {
    if rows == [] {
    } else {
      var n := |rows| - 1;
      PastShrinks(rows[..n], c, last);
      PastCursorIsOrder(rows[n], KeyOf(last));
      if c.Some? {
        PastCursorIsOrder(rows[n], c.value);
        PastCursorIsOrder(last, c.value);
      }
      if last in rows && rows[n] != last { assert last in rows[..n]; }
    }
  }

  lemma {:induction false} PastComesFrom(rows: seq<Row>, c: Option<Cursor>)
    ensures forall r | r in Past(rows, c) :: r in rows && PastCursor(r, c)
  {
    if rows == [] {
    } else {
      PastComesFrom(rows[..|rows| - 1], c);
    }
  }

  /** The rows of all ranked pages from c on: while a page is full, its last row is the next
      cursor. */
  function Pages(sorted: seq<Row>, c: Option<Cursor>, limit: nat): (out: seq<Row>)
    requires limit >= 1
    decreases |Past(sorted, c)|
  {
    var page := Ranked(sorted, c, limit);
    if |page| < limit then page
    else
      PastComesFrom(sorted, c);
      PastShrinks(sorted, c, page[limit - 1]);
      page + Pages(sorted, Some(KeyOf(page[limit - 1])), limit)
  }

  lemma PagesStep(sorted: seq<Row>, c: Option<Cursor>, limit: nat, rest: seq<Row>)
    requires limit >= 1 && rest == Past(sorted, c)
    ensures Pages(sorted, c, limit)
            == if |rest| < limit then rest else rest[..limit] + Pages(sorted, Some(KeyOf(rest[limit - 1])), limit)
  {
  }

  lemma NextRows(sorted: seq<Row>, i: nat, limit: nat)
    requires limit >= 1 && i + limit < |sorted|
    ensures sorted[i + 1..][..limit] + sorted[i + limit + 1..] == sorted[i + 1..]
    ensures sorted[i + 1..][limit - 1] == sorted[i + limit]
  {
  }

  lemma {:induction false} PagesFrom(sorted: seq<Row>, i: nat, limit: nat)
    requires StrictlySorted(sorted) && i < |sorted| && limit >= 1
    ensures Pages(sorted, Some(KeyOf(sorted[i])), limit) == sorted[i + 1..]
    decreases |sorted| - i
  {
    PastAfter(sorted, i);
    var rest := sorted[i + 1..];
    PagesStep(sorted, Some(KeyOf(sorted[i])), limit, rest);
    if |rest| < limit {
    } else {
      PagesFrom(sorted, i + limit, limit);
      NextRows(sorted, i, limit);
    }
  }

  lemma PagesAreTheList(sorted: seq<Row>, limit: nat)
    requires StrictlySorted(sorted) && limit >= 1
    ensures Pages(sorted, None, limit) == sorted
  {
    PastNone(sorted);
    PagesStep(sorted, None, limit, sorted);
    if |sorted| >= limit {
      PagesFrom(sorted, limit - 1, limit);
    }
  }

  /** One row a page: keys strictly advance, so of two rows with one key the second is lost. */
  lemma {:induction false} SinglesAdvance(sorted: seq<Row>, c: Option<Cursor>)
    ensures StrictlySorted(Pages(sorted, c, 1))
    ensures forall r | r in Pages(sorted, c, 1) :: PastCursor(r, c)
    decreases |Past(sorted, c)|
  {
    var left := Past(sorted, c);
    PagesStep(sorted, c, 1, left);
    if left == [] {
    } else {
      PastComesFrom(sorted, c);
      PastShrinks(sorted, c, left[0]);
      SinglesAdvance(sorted, Some(KeyOf(left[0])));
      var rest := Pages(sorted, Some(KeyOf(left[0])), 1);
      forall r | r in rest ensures Precedes(KeyOf(left[0]), KeyOf(r)) && PastCursor(r, c) {
        PastCursorIsOrder(r, KeyOf(left[0]));
      }
      PrependSorted(left[0], rest);
      assert left[..1] == [left[0]];
    }
  }

  lemma PrependSorted(r: Row, rest: seq<Row>)
    requires StrictlySorted(rest) && forall x | x in rest :: Precedes(KeyOf(r), KeyOf(x))
    ensures StrictlySorted([r] + rest)
  {
    var all := [r] + rest;
    forall i, j | 0 <= i < |all| && 0 <= j < |all| ensures OrderedAt(all, i, j) {
      if i < j {
        assert all[j] == rest[j - 1] && all[j] in rest;
        if i > 0 { assert OrderedAt(rest, i - 1, j - 1); }
      }
    }
  }

  /** The pages reached by following cursors concatenate to the sorted list, each row once, for
      every page size, exactly when no two results share (sim, captured_at, id). Two references
      from snapshots captured in one millisecond share it. */
  lemma PagesMatchIff(sorted: seq<Row>)
    requires Sorted(sorted)
    ensures (forall limit: nat | limit >= 1 :: Pages(sorted, None, limit) == sorted) <==> DistinctKeys(sorted)
  {
    StrictIffDistinct(sorted);
    if DistinctKeys(sorted) {
      forall limit: nat | limit >= 1 ensures Pages(sorted, None, limit) == sorted {
        PagesAreTheList(sorted, limit);
      }
    } else {
      SinglesAdvance(sorted, None);
      assert Pages(sorted, None, 1) != sorted;
    }
  }

  /** Two results with one key, one row a page: the second is never shown. */
  lemma SecondRowLost(a: Row, b: Row)
    requires KeyOf(a) == KeyOf(b)
    ensures Sorted([a, b]) && Pages([a, b], None, 1) == [a]
  {
    PastNone([a, b]);
    PagesStep([a, b], None, 1, [a, b]);
    assert Past([a, b][..1], Some(KeyOf(a))) == Past([a], Some(KeyOf(a))) == [] by { assert [a][..0] == []; }
    PagesStep([a, b], Some(KeyOf(a)), 1, []);
  }

  // ---- one invocation --------------------------------------------------------------------------

  datatype Result =
    | Page(items: seq<Row>, next: Option<Cursor>, fallback: bool)
    | LimitTooLarge
    | QueryError
    | IndexPanic

  /** fts holds what the body search finds, by captured_at and id; it knows no cursor. */
  method Search(sorted: seq<Row>, fts: seq<Row>, cursor: Option<Cursor>, limit: int) returns (res: Result)
    ensures res.LimitTooLarge? <==> limit > 500
    ensures res.QueryError? <==> limit < 0
    ensures res.IndexPanic? <==> limit == 0
    ensures 1 <= limit <= 500 ==> res.Page?
    ensures res.Page? && Past(sorted, cursor) != [] ==> !res.fallback && res.items == Ranked(sorted, cursor, limit)
    ensures res.Page? && Past(sorted, cursor) == [] ==> res.items == Take(fts, limit) && res.fallback == (fts != [])
    ensures res.Page? ==>
              res.next == if !res.fallback && |res.items| == limit then Some(KeyOf(res.items[limit - 1])) else None
  {
    if limit > 500 { return LimitTooLarge; }
    if limit < 0 { return QueryError; }
    var items := Ranked(sorted, cursor, limit);
    var fallback := false;
    if |items| == 0 {
      items := Take(fts, limit);
      if |items| > 0 { fallback := true; }
    }
    var next: Option<Cursor> := None;
    if !fallback && |items| == limit {
      if |items| == 0 { return IndexPanic; }
      next := Some(KeyOf(items[|items| - 1]));
    }
    res := Page(items, next, fallback);
  }

  /** A list that fills its last page exactly still gets a cursor there; the page behind it is
      empty, so the body search runs and serves rows of its own. */
  lemma FullLastPage(sorted: seq<Row>, limit: nat)
    requires StrictlySorted(sorted) && limit >= 1 && |sorted| >= limit
    ensures Past(sorted, Some(KeyOf(sorted[|sorted| - 1]))) == []
  {
    PastAfter(sorted, |sorted| - 1);
  }

  // ---- the argument list --------------------------------------------------------------------------

  datatype Filter = App | Component | Topic | FactType | Lang | Since

  /** A clause and the placeholders it names, each expected to hold the given text. */
  datatype Clause = Clause(numbers: seq<nat>, values: seq<string>)

  predicate Bound(c: Clause, args: seq<string>) {
    && |c.numbers| == |c.values|
    && forall i | 0 <= i < |c.numbers| :: 1 <= c.numbers[i] <= |args| && args[c.numbers[i] - 1] == c.values[i]
  }

  /** Clauses and arguments grow together: whichever filters are set, every placeholder names
      its own value, and the limit comes last. */
  method BuildQuery(query: string, filters: seq<(Filter, string)>, cursor: Option<(string, string, string)>,
                    limit: string)
    returns (clauses: seq<Clause>, args: seq<string>, limitAt: nat)
    ensures |clauses| == 1 + |filters| + (if cursor.Some? then 1 else 0)
    ensures clauses[0].values == [query, query]
    ensures forall k | 0 <= k < |filters| :: clauses[1 + k].values == [filters[k].1]
    ensures cursor.Some? ==> clauses[1 + |filters|].values
                             == [cursor.value.0, cursor.value.0, cursor.value.1, cursor.value.1, cursor.value.2]
    ensures forall c | c in clauses :: Bound(c, args)
    ensures limitAt == |args| >= 1 && args[limitAt - 1] == limit
  {
    args := [query];
    var next := 2;
    clauses := [Clause([1, 1], [query, query])];
    for k := 0 to |filters|
      invariant |clauses| == 1 + k && next == |args| + 1
      invariant clauses[0].values == [query, query]
      invariant forall j | 0 <= j < k :: clauses[1 + j].values == [filters[j].1]
      invariant forall c | c in clauses :: Bound(c, args)
    {
      clauses := clauses + [Clause([next], [filters[k].1])];
      args := args + [filters[k].1];
      next := next + 1;
    }
    if cursor.Some? {
      var (s, t, m) := cursor.value;
      clauses := clauses + [Clause([next, next, next + 1, next + 1, next + 2], [s, s, t, t, m])];
      args := args + [s, t, m];
      next := next + 3;
    }
    limitAt := next;
    args := args + [limit];
  }

  // ---- extractSnippet --------------------------------------------------------------------------

  predicate OccursAt(s: string, sub: string, i: nat) {
    i + |sub| <= |s| && s[i..i + |sub|] == sub
  }

  lemma OccursLater(s: string, sub: string, i: nat)
    requires s != "" && i > 0
    ensures OccursAt(s, sub, i) <==> OccursAt(s[1..], sub, i - 1)
  {
    if i + |sub| <= |s| { assert s[i..i + |sub|] == s[1..][i - 1..i - 1 + |sub|]; }
  }

  /** strings.Index: where sub first occurs. */
  function Index(s: string, sub: string): (at: Option<nat>)
    ensures at.Some? ==> OccursAt(s, sub, at.value)
    ensures forall i: nat | OccursAt(s, sub, i) :: at.Some? && at.value <= i
  {
    if OccursAt(s, sub, 0) then Some(0)
    else if s == "" then None
    else
      assert forall i: nat | i > 0 && OccursAt(s, sub, i) :: OccursAt(s[1..], sub, i - 1) by {
        forall i: nat | i > 0 && OccursAt(s, sub, i) ensures OccursAt(s[1..], sub, i - 1) { OccursLater(s, sub, i); }
      }
      match Index(s[1..], sub)
      case None => None
      case Some(n) =>
        OccursLater(s, sub, n + 1);
        Some(n + 1)
  }

  /** sub is found exactly when it stands somewhere, and never after a place where it stands. */
  lemma IndexMeans(s: string, sub: string, pre: string, suf: string)
    ensures s == pre + sub + suf ==> Index(s, sub).Some? && Index(s, sub).value <= |pre|
    ensures Index(s, sub).Some? ==>
              var n := Index(s, sub).value;
              n + |sub| <= |s| && s == s[..n] + sub + s[n + |sub|..]
  {
    if s == pre + sub + suf {
      assert s[|pre|..|pre| + |sub|] == sub;
      assert OccursAt(s, sub, |pre|);
    }
  }

  /** strings.ReplaceAll of newlines by spaces. */
  function Spaced(s: string): (r: string)
    ensures |r| == |s| && forall i | 0 <= i < |s| :: r[i] == if s[i] == '\n' then ' ' else s[i]
  {
    if s == "" then "" else [if s[0] == '\n' then ' ' else s[0]] + Spaced(s[1..])
  }

  /** idx is where the lower-cased text matched; lower-casing may move it past the end. The window
      is always in bounds and as long as it can be, and shows a match of up to 100 bytes that lies
      inside the text. */
  method SnippetWindow(len: nat, idx: nat, ghost q: nat) returns (start: nat, end: nat)
    ensures start <= end <= len
    ensures end - start == Min(len, 200)
    ensures q <= 100 && idx + q <= len ==> start <= idx && idx + q <= end
  {
    var s: int := idx - 100;
    if s < 0 { s := 0; }
    var e := s + 200;
    if e > len {
      e := len;
      s := e - 200;
      if s < 0 { s := 0; }
    }
    start, end := s, e;
  }

  /** out is a piece of the text on one line, with what was found in it if that fits. */
  predicate ShowsMatch(text: string, start: nat, out: string, idx: nat, q: nat) {
    && start + |out| <= |text| && out == Spaced(text[start..start + |out|])
    && (q <= 100 && idx + q <= |text| ==> start <= idx && idx + q <= start + |out|)
  }

  /** A match is shown in a window of one line, any other text is cut after 200 bytes with its
      newlines. lower stands for strings.ToLower. */
  method ExtractSnippet(text: string, query: string, lower: string -> string) returns (out: string)
    ensures |out| == Min(|text|, 200)
    ensures Index(lower(text), lower(query)).None? ==> out == text[..Min(|text|, 200)]
    ensures text != "" && Index(lower(text), lower(query)).Some? ==>
              && '\n' !in out
              && exists start: nat ::
                   ShowsMatch(text, start, out, Index(lower(text), lower(query)).value, |lower(query)|)
  {
    if text == "" { return ""; }
    var at := Index(lower(text), lower(query));
    if at.None? {
      if |text| > 200 { return text[..200]; }
      return text;
    }
    var start, end := SnippetWindow(|text|, at.value, |lower(query)|);
    out := Spaced(text[start..end]);
    assert ShowsMatch(text, start, out, at.value, |lower(query)|);
  }
}
