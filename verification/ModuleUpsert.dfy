/** The modules upsert of kb index and ingest-repo: what any sequence of upserts on one
    (app, body_sha256) adds up to, and the batched loop that sends them. */
module ModuleUpsert {
  import opened Basics

  /** rest stands for the columns an update never touches: synthetic_name, prefix, body_size,
      body_excerpt. */
  datatype Mod = Mod(name: string, rest: string, symbols: Option<string>, vendored: bool, firstSeen: int, lastSeen: int)

  const MARKER := "_module_"

  /** LIKE '%\_module\_%' */
  predicate Synthesised(name: string) {
    MARKER <= name || (name != "" && Synthesised(name[1..]))
  }

  function Length(s: Option<string>): nat {
    if s.Some? then |s.value| else 0
  }

  /** INSERT ... ON CONFLICT (app, body_sha256) DO UPDATE with its CASE expressions. */
  function Upsert(cur: Option<Mod>, m: Mod): Mod {
    match cur
    case None => m
    case Some(c) =>
      c.(lastSeen := m.lastSeen,
         vendored := c.vendored || m.vendored,
         name := if Synthesised(c.name) && !Synthesised(m.name) then m.name else c.name,
         symbols := if m.symbols.Some? && Length(m.symbols) > Length(c.symbols) then m.symbols else c.symbols)
  }

  function Fold(cur: Option<Mod>, ups: seq<Mod>): Option<Mod> {
    if ups == [] then cur else Some(Upsert(Fold(cur, ups[..|ups| - 1]), ups[|ups| - 1]))
  }

  // ---- what the fold means ------------------------------------------------------------

  /** The first upsert that brought a real name. */
  function FirstReal(ups: seq<Mod>): (k: Option<nat>)
    ensures k.Some? ==> k.value < |ups| && !Synthesised(ups[k.value].name)
    ensures forall j | 0 <= j < (if k.Some? then k.value else |ups|) :: Synthesised(ups[j].name)
  {
    if ups == [] then None
    else
      var n := |ups| - 1;
      var k := FirstReal(ups[..n]);
      assert forall j | 0 <= j < n :: ups[..n][j] == ups[j];
      if k.Some? then k else if Synthesised(ups[n].name) then None else Some(n)
  }

  /** The earliest of the longest symbol lists. */
  function Longest(ups: seq<Mod>): (k: nat)
    requires ups != []
    ensures k < |ups|
    ensures forall j | 0 <= j < |ups| :: Length(ups[j].symbols) <= Length(ups[k].symbols)
    ensures forall j | 0 <= j < k :: Length(ups[j].symbols) < Length(ups[k].symbols)
  {
    var n := |ups| - 1;
    if n == 0 then 0
    else
      var k := Longest(ups[..n]);
      assert forall j | 0 <= j < n :: ups[..n][j] == ups[j];
      if Length(ups[n].symbols) > Length(ups[k].symbols) then n else k
  }

  lemma {:induction false} FoldName(ups: seq<Mod>)
    requires ups != []
    ensures Fold(None, ups).value.name == ups[if FirstReal(ups).Some? then FirstReal(ups).value else 0].name
  {
    if |ups| == 1 {
    } else {
      FoldName(ups[..|ups| - 1]);
    }
  }

  lemma {:induction false} FoldSymbols(ups: seq<Mod>)
    requires ups != []
    ensures Fold(None, ups).value.symbols
            == ups[if Length(ups[Longest(ups)].symbols) > 0 then Longest(ups) else 0].symbols
  {
    if |ups| == 1 {
    } else {
      FoldSymbols(ups[..|ups| - 1]);
    }
  }

  predicate AnyVendored(ups: seq<Mod>) {
    exists m | m in ups :: m.vendored
  }

  lemma {:induction false} FoldRest(ups: seq<Mod>)
    requires ups != []
    ensures var r := Fold(None, ups).value;
            && r.firstSeen == ups[0].firstSeen && r.rest == ups[0].rest
            && r.lastSeen == ups[|ups| - 1].lastSeen
            && r.vendored == AnyVendored(ups)
  {
    var n := |ups| - 1;
    if n == 0 {
    } else {
      FoldRest(ups[..n]);
      assert ups == ups[..n] + [ups[n]];
    }
  }

  /** Any upserts on one key: vendored is their OR; the name is the first without _module_, if
      there is one, else the first; the symbols are the earliest longest, if any is non-empty,
      else the first row's; the first first_seen_at and the last last_seen_at. */
  lemma FoldMeans(ups: seq<Mod>)
    requires ups != []
    ensures Fold(None, ups) == Some(Mod(
              ups[if FirstReal(ups).Some? then FirstReal(ups).value else 0].name, ups[0].rest,
              ups[if Length(ups[Longest(ups)].symbols) > 0 then Longest(ups) else 0].symbols,
              AnyVendored(ups), ups[0].firstSeen, ups[|ups| - 1].lastSeen))
  {
    FoldName(ups);
    FoldSymbols(ups);
    FoldRest(ups);
  }

  /** The name contains _module_. */
  ghost predicate Marked(name: string) {
    exists i :: MarkedAt(name, i)
  }

  predicate MarkedAt(name: string, i: int) {
    0 <= i && i + 8 <= |name| && name[i..i + 8] == "_module_"
  }

  lemma MarkedAtStart(name: string)
    ensures MarkedAt(name, 0) <==> MARKER <= name
  {
  }

  lemma MarkedAtNext(name: string, i: int)
    requires name != "" && i > 0
    ensures MarkedAt(name, i) <==> MarkedAt(name[1..], i - 1)
  {
    if i + 8 <= |name| { assert name[1..][i - 1..i + 7] == name[i..i + 8]; }
  }

  lemma MarkedIff(name: string)
    ensures Marked(name) <==> MARKER <= name || (name != "" && Marked(name[1..]))
  {
    MarkedAtStart(name);
    if i :| MarkedAt(name, i) {
      if i > 0 { MarkedAtNext(name, i); }
    }
    if name != "" && Marked(name[1..]) {
      var i :| MarkedAt(name[1..], i);
      MarkedAtNext(name, i + 1);
    }
  }

  lemma {:induction false} SynthesisedIff(name: string)
    ensures Synthesised(name) <==> Marked(name)
  {
    MarkedIff(name);
    if name == "" {
    } else {
      SynthesisedIff(name[1..]);
    }
  }

  /** The first name without the marker, or the first of all. */
  ghost predicate TakesName(ups: seq<Mod>, name: string) {
    if exists k | 0 <= k < |ups| :: !Marked(ups[k].name)
    then exists k | 0 <= k < |ups| :: name == ups[k].name && !Marked(ups[k].name)
                                      && forall j | 0 <= j < k :: Marked(ups[j].name)
    else ups != [] && name == ups[0].name
  }

  predicate HasSymbols(m: Mod) {
    m.symbols.Some? && m.symbols.value != ""
  }

  /** The earliest of the longest symbol lists, or what the first row has if none is non-empty. */
  ghost predicate TakesSymbols(ups: seq<Mod>, symbols: Option<string>) {
    if exists k | 0 <= k < |ups| :: HasSymbols(ups[k])
    then exists k | 0 <= k < |ups| :: ups[k].symbols.Some? && symbols == ups[k].symbols
           && (forall j | 0 <= j < |ups| && ups[j].symbols.Some? :: |ups[j].symbols.value| <= |ups[k].symbols.value|)
           && (forall j | 0 <= j < k && ups[j].symbols.Some? :: |ups[j].symbols.value| < |ups[k].symbols.value|)
    else ups != [] && symbols == ups[0].symbols
  }

  lemma NameTaken(ups: seq<Mod>)
    requires ups != []
    ensures TakesName(ups, ups[if FirstReal(ups).Some? then FirstReal(ups).value else 0].name)
  {
    forall k | 0 <= k < |ups| ensures Synthesised(ups[k].name) <==> Marked(ups[k].name) {
      SynthesisedIff(ups[k].name);
    }
  }

  lemma SymbolsTaken(ups: seq<Mod>)
    requires ups != []
    ensures TakesSymbols(ups, ups[if Length(ups[Longest(ups)].symbols) > 0 then Longest(ups) else 0].symbols)
  {
    var k := Longest(ups);
    if j :| 0 <= j < |ups| && HasSymbols(ups[j]) { assert Length(ups[j].symbols) <= Length(ups[k].symbols); }
  }

  /** What any upserts on one key leave, column by column. */
  lemma FoldColumns(ups: seq<Mod>)
    requires ups != []
    ensures Fold(None, ups).Some?
    ensures var r := Fold(None, ups).value;
            && TakesName(ups, r.name) && TakesSymbols(ups, r.symbols)
            && (r.vendored <==> exists m | m in ups :: m.vendored)
            && r.firstSeen == ups[0].firstSeen && r.rest == ups[0].rest && r.lastSeen == ups[|ups| - 1].lastSeen
  {
    FoldMeans(ups);
    NameTaken(ups);
    SymbolsTaken(ups);
  }

  /** On a row that is there they do what they do on its values sent first. */
  lemma {:induction false} FoldFrom(c: Mod, ups: seq<Mod>)
    ensures Fold(Some(c), ups) == Fold(None, [c] + ups)
  {
    if ups == [] {
      assert [c] + ups == [c] && [c][..0] == [];
    } else {
      var n := |ups| - 1;
      FoldFrom(c, ups[..n]);
      assert ([c] + ups)[..n + 1] == [c] + ups[..n];
    }
  }

  // ---- the table -------------------------------------------------------------------------

  /** (app, body_sha256) */
  datatype Key = Key(app: string, sha: string)

  datatype Op = Op(key: Key, m: Mod)

  type Table = map<Key, Mod>

  function Get(t: Table, k: Key): Option<Mod> {
    if k in t then Some(t[k]) else None
  }

  function Put(t: Table, op: Op): Table {
    t[op.key := Upsert(Get(t, op.key), op.m)]
  }

  function PutAll(t: Table, ops: seq<Op>): Table {
    if ops == [] then t else Put(PutAll(t, ops[..|ops| - 1]), ops[|ops| - 1])
  }

  function For(ops: seq<Op>, k: Key): seq<Mod> {
    if ops == [] then []
    else For(ops[..|ops| - 1], k) + if ops[|ops| - 1].key == k then [ops[|ops| - 1].m] else []
  }

  lemma FoldSnoc(cur: Option<Mod>, ups: seq<Mod>, m: Mod)
    ensures Fold(cur, ups + [m]) == Some(Upsert(Fold(cur, ups), m))
  {
    assert (ups + [m])[..|ups|] == ups;
  }

  /** Keys do not interfere: each row is the fold of its own upserts. */
  lemma {:induction false} PutAllByKey(t: Table, ops: seq<Op>, k: Key)
    ensures Get(PutAll(t, ops), k) == Fold(Get(t, k), For(ops, k))
  {
    if ops == [] {
    } else {
      var n := |ops| - 1;
      PutAllByKey(t, ops[..n], k);
      FoldSnoc(Get(t, k), For(ops[..n], k), ops[n].m);
      assert For(ops[..n], k) + [] == For(ops[..n], k);
    }
  }

  lemma {:induction false} PutAllConcat(t: Table, a: seq<Op>, b: seq<Op>)
    ensures PutAll(t, a + b) == PutAll(PutAll(t, a), b)
  {
    if b == [] {
      assert a + b == a;
    } else {
      var n := |b| - 1;
      assert (a + b)[..|a + b| - 1] == a + b[..n];
      PutAllConcat(t, a, b[..n]);
    }
  }

  // ---- runKBIndex's loop --------------------------------------------------------------------

  /** A scanned module as the loop sees it. */
  datatype Found = Found(size: int, op: Op)

  /** Tiny and huge bodies are dropped; a maximum of 0 is none. */
  predicate Keeps(f: Found, minBytes: int, maxBytes: int) {
    f.size >= minBytes && !(maxBytes > 0 && f.size > maxBytes)
  }

  function Kept(found: seq<Found>, minBytes: int, maxBytes: int): seq<Op> {
    if found == [] then []
    else
      var f := found[|found| - 1];
      Kept(found[..|found| - 1], minBytes, maxBytes) + if Keeps(f, minBytes, maxBytes) then [f.op] else []
  }

  /** What goes well for one scanned module: its upsert; the sighting and body inserts; the
      commit and the reopening of the batch it fills. A failing statement is only warned about. */
  datatype Luck = Luck(upsert: bool, others: bool, commit: bool, reopen: bool)

  predicate AllWell(l: Luck) {
    l.upsert && l.others && l.commit && l.reopen
  }

  /** No statement failed for the kept modules among these. */
  ghost predicate NoneFailed(found: seq<Found>, minBytes: int, maxBytes: int, luck: nat -> Luck, n: nat)
    requires n <= |found|
  {
    forall i | 0 <= i < n && Keeps(found[i], minBytes, maxBytes) :: luck(i).upsert && luck(i).others
  }

  /** All goes well up to the final commit. */
  ghost predicate Lucky(luck: nat -> Luck, n: nat) {
    forall i | 0 <= i <= n :: AllWell(luck(i))
  }

  /** The loop's counters after the first n modules, `seen` of which were kept. */
  ghost predicate Books(found: seq<Found>, minBytes: int, maxBytes: int, luck: nat -> Luck, n: nat, batch: nat,
                        seen: seq<Op>, committed: nat, inBatch: nat, batches: nat, aborted: bool)
    requires n <= |found|
  {
    && seen == Kept(found[..n], minBytes, maxBytes)
    && (!aborted ==> committed + inBatch == |seen| && NoneFailed(found, minBytes, maxBytes, luck, n))
    && committed == Filled(batches, batch) && (batch > 0 ==> inBatch < batch)
    && (Lucky(luck, |found|) ==> !aborted)
  }

  /** The next module is dropped. */
  lemma BooksDrop(found: seq<Found>, minBytes: int, maxBytes: int, luck: nat -> Luck, n: nat, batch: nat,
                  seen: seq<Op>, committed: nat, inBatch: nat, batches: nat, aborted: bool)
    requires n < |found| && !Keeps(found[n], minBytes, maxBytes)
    requires Books(found, minBytes, maxBytes, luck, n, batch, seen, committed, inBatch, batches, aborted)
    ensures Books(found, minBytes, maxBytes, luck, n + 1, batch, seen, committed, inBatch, batches, aborted)
  {
    KeptStep(found, n, minBytes, maxBytes);
    assert seen + [] == seen;
  }

  /** The next module's upsert fails, or its batch is aborted already. */
  lemma BooksAbort(found: seq<Found>, minBytes: int, maxBytes: int, luck: nat -> Luck, n: nat, batch: nat,
                   seen: seq<Op>, committed: nat, inBatch: nat, batches: nat, aborted: bool)
    requires n < |found| && Keeps(found[n], minBytes, maxBytes) && (aborted || !luck(n).upsert)
    requires Books(found, minBytes, maxBytes, luck, n, batch, seen, committed, inBatch, batches, aborted)
    ensures Books(found, minBytes, maxBytes, luck, n + 1, batch, seen + [found[n].op],
                  committed, inBatch, batches, true)
  {
    KeptStep(found, n, minBytes, maxBytes);
    assert Lucky(luck, |found|) ==> AllWell(luck(n));
  }

  /** The next module is sent, and maybe fills its batch. */
  lemma BooksKeep(found: seq<Found>, minBytes: int, maxBytes: int, luck: nat -> Luck, n: nat, batch: nat,
                  seen: seq<Op>, committed: nat, inBatch: nat, batches: nat, committed': nat, inBatch': nat, full: bool)
    requires n < |found| && Keeps(found[n], minBytes, maxBytes) && luck(n).upsert
    requires Books(found, minBytes, maxBytes, luck, n, batch, seen, committed, inBatch, batches, false)
    requires committed' == (if full then committed + batch else committed) && committed' + inBatch' == |seen| + 1
    requires batch > 0 ==> inBatch' < batch
    ensures Books(found, minBytes, maxBytes, luck, n + 1, batch, seen + [found[n].op],
                  committed', inBatch', if full then batches + 1 else batches, !luck(n).others)
  {
    KeptStep(found, n, minBytes, maxBytes);
    assert Lucky(luck, |found|) ==> AllWell(luck(n));
  }

  class Indexer {
    var table: Table
    var pending: Table

    constructor (t: Table)
      ensures table == t && pending == t
    {
      table, pending := t, t;
    }

    /** Of the modules seen so far the first `committed` are on disk; the rest are in the open
        batch unless a failed statement has aborted it. */
    ghost predicate Midway(start: Table, seen: seq<Op>, committed: nat, aborted: bool)
      reads this
    {
      && committed <= |seen| && table == PutAll(start, seen[..committed])
      && (!aborted ==> pending == PutAll(start, seen))
    }

    /** flushBatch, or the final commit. On a failed commit the open batch is lost; an aborted
        transaction cannot commit. */
    method Flush(ghost start: Table, ghost seen: seq<Op>, ghost committed: nat, aborted: bool, commits: bool)
      returns (ok: bool)
      requires Midway(start, seen, committed, aborted)
      modifies this
      ensures ok == (commits && !aborted)
      ensures table == PutAll(start, seen[..if ok then |seen| else committed])
      ensures ok ==> Midway(start, seen, |seen|, false)
    {
      assert seen[..|seen|] == seen;
      ok := commits && !aborted;
      if ok { table := pending; }
      pending := table;
    }

    /** Skipping a module in an aborted batch, or one whose own upsert aborts it. */
    lemma SeenMore(start: Table, seen: seq<Op>, committed: nat, aborted: bool, op: Op)
      requires Midway(start, seen, committed, aborted)
      ensures Midway(start, seen + [op], committed, true)
    {
      assert (seen + [op])[..committed] == seen[..committed];
    }

    method Send(ghost start: Table, ghost seen: seq<Op>, ghost committed: nat, op: Op)
      requires Midway(start, seen, committed, false)
      modifies this
      ensures Midway(start, seen + [op], committed, false)
    {
      pending := Put(pending, op);
      assert (seen + [op])[..|seen|] == seen;
      assert (seen + [op])[..committed] == seen[..committed];
    }

    /** One kept module in an open batch whose upsert goes through: commit when the batch is
        full, and open the next. */
    method Keep(ghost start: Table, ghost seen: seq<Op>, committed: nat, inBatch: nat, op: Op, batch: nat, l: Luck)
      returns (ok: bool, committed': nat, inBatch': nat, aborted: bool, full: bool)
      requires Midway(start, seen, committed, false) && committed + inBatch == |seen|
      requires batch > 0 ==> inBatch < batch
      modifies this
      ensures committed' <= |seen| + 1 && table == PutAll(start, (seen + [op])[..committed'])
      ensures committed' == (if full then committed + batch else committed) && (full ==> batch > 0)
      ensures ok && full ==> l.commit && l.reopen
      ensures ok ==>
                && aborted == !l.others && Midway(start, seen + [op], committed', aborted)
                && committed' + inBatch' == |seen| + 1 && (batch > 0 ==> inBatch' < batch)
      ensures AllWell(l) ==> ok
    {
      Send(start, seen, committed, op);
      aborted, committed', inBatch', ok, full := !l.others, committed, inBatch + 1, true, false;
      if batch > 0 && inBatch' >= batch {
        assert (seen + [op])[..|seen| + 1] == seen + [op];
        ok := Flush(start, seen + [op], committed, aborted, l.commit);
        if !ok { return; }
        committed', inBatch', full := committed + inBatch', 0, true;
        ok := l.reopen;
      }
    }

    /** luck(i) is the fate of the i-th scanned module, the last one that of the final commit.
        Rows land in committed batches, and a run that fails has exactly its full batches on disk.
        A statement that fails is warned about and never lost silently: it aborts its batch, so
        the run fails. A batch size of 0 is one transaction; the rows of a run that succeeds do
        not depend on the batch size. */
    method Index(found: seq<Found>, minBytes: int, maxBytes: int, batch: nat, luck: nat -> Luck)
      returns (ok: bool, committed: nat, batches: nat)
      requires pending == table
      modifies this
      ensures Lucky(luck, |found|) ==> ok
      ensures committed <= |Kept(found, minBytes, maxBytes)|
      ensures table == PutAll(old(table), Kept(found, minBytes, maxBytes)[..committed])
      ensures !ok ==> committed == Filled(batches, batch)
      ensures ok ==>
                committed == |Kept(found, minBytes, maxBytes)| && NoneFailed(found, minBytes, maxBytes, luck, |found|)
    {
      ghost var start := table;
      var inBatch, aborted := 0, false;
      ghost var seen: seq<Op> := [];
      committed, batches, ok := 0, 0, true;
      for i := 0 to |found|
        invariant Midway(start, seen, committed, aborted)
        invariant Books(found, minBytes, maxBytes, luck, i, batch, seen, committed, inBatch, batches, aborted)
      {
        var f := found[i];
        ghost var before, was, had, full' := seen, committed, inBatch, batches;
        if f.size < minBytes || (maxBytes > 0 && f.size > maxBytes) {
          BooksDrop(found, minBytes, maxBytes, luck, i, batch, seen, committed, inBatch, batches, aborted);
          continue;
        }
        seen := seen + [f.op];
        if aborted || !luck(i).upsert {
          BooksAbort(found, minBytes, maxBytes, luck, i, batch, before, committed, inBatch, batches, aborted);
          SeenMore(start, before, committed, aborted, f.op);
          aborted := true;
          continue;
        }
        assert Lucky(luck, |found|) ==> AllWell(luck(i));
        var full;
        ok, committed, inBatch, aborted, full := Keep(start, before, committed, inBatch, f.op, batch, luck(i));
        if full { batches := batches + 1; }
        if !ok {
          PartOfAll(found, minBytes, maxBytes, i, before, committed);
          return;
        }
        BooksKeep(found, minBytes, maxBytes, luck, i, batch, before, was, had, full', committed, inBatch, full);
      }
      assert found[..|found|] == found;
      assert Lucky(luck, |found|) ==> AllWell(luck(|found|));
      ok := Flush(start, seen, committed, aborted, luck(|found|).commit);
      if ok { committed := committed + inBatch; }
    }
  }

  lemma PartOfAll(found: seq<Found>, minBytes: int, maxBytes: int, i: nat, before: seq<Op>, n: nat)
    requires i < |found| && Keeps(found[i], minBytes, maxBytes) && n <= |before| + 1
    requires before == Kept(found[..i], minBytes, maxBytes)
    ensures n <= |Kept(found, minBytes, maxBytes)|
    ensures (before + [found[i].op])[..n] == Kept(found, minBytes, maxBytes)[..n]
  {
    KeptStep(found, i, minBytes, maxBytes);
    KeptPrefix(found, i + 1, minBytes, maxBytes);
  }

  lemma KeptStep(found: seq<Found>, i: nat, minBytes: int, maxBytes: int)
    requires i < |found|
    ensures Kept(found[..i + 1], minBytes, maxBytes)
            == Kept(found[..i], minBytes, maxBytes) + if Keeps(found[i], minBytes, maxBytes) then [found[i].op] else []
  {
    assert found[..i + 1][..i] == found[..i];
  }

  lemma {:induction false} KeptPrefix(found: seq<Found>, i: nat, minBytes: int, maxBytes: int)
    requires i <= |found|
    ensures Kept(found[..i], minBytes, maxBytes) <= Kept(found, minBytes, maxBytes)
  {
    if i == |found| {
      assert found[..i] == found;
    } else {
      KeptPrefix(found[..|found| - 1], i, minBytes, maxBytes);
      assert found[..|found| - 1][..i] == found[..i];
    }
  }
}
