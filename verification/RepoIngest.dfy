/** kb enrich ingest-repo: each file's module is upserted and tagged, then the orphan sweep
    deletes what is tagged (slug, root) and was not touched. */
module RepoIngest {
  import opened Basics
  import opened ModuleUpsert

  /** A modules row; root is repo_root. */
  datatype Row = Row(key: Key, m: Mod, lang: string, root: Option<string>)

  /** The table with its unique index on (app, body_sha256); next is the identity sequence. */
  datatype Catalog = Catalog(byKey: map<Key, nat>, rows: map<nat, Row>, next: nat)

  ghost predicate WF(c: Catalog) {
    && (forall k | k in c.byKey :: c.byKey[k] in c.rows && c.rows[c.byKey[k]].key == k)
    && (forall i | i in c.rows :: 1 <= i < c.next && c.rows[i].key in c.byKey && c.byKey[c.rows[i].key] == i)
    && c.next >= 1
  }

  datatype File = File(sha: string, m: Mod, lang: string)

  /** The upsert, the tagging UPDATE and the lookup of the row's id. */
  function Touch(c: Catalog, slug: string, root: string, f: File): (r: (Catalog, nat))
    requires WF(c)
    ensures WF(r.0) && r.1 in r.0.rows
  {
    var key := Key(slug, f.sha);
    if key in c.byKey then
      var id := c.byKey[key];
      (c.(rows := c.rows[id := Row(key, Upsert(Some(c.rows[id].m), f.m), f.lang, Some(root))], next := c.next + 1), id)
    else
      (Catalog(c.byKey[key := c.next], c.rows[c.next := Row(key, f.m, f.lang, Some(root))], c.next + 1), c.next)
  }

  function TouchAll(c: Catalog, slug: string, root: string, files: seq<File>): (r: (Catalog, set<nat>))
    requires WF(c)
    ensures WF(r.0)
  {
    if files == [] then (c, {})
    else
      var n := |files| - 1;
      var (before, ids) := TouchAll(c, slug, root, files[..n]);
      var (after, id) := Touch(before, slug, root, files[n]);
      (after, ids + {id})
  }

  predicate Tagged(c: Catalog, slug: string, root: string, i: nat) {
    i in c.rows && c.rows[i].key.app == slug && c.rows[i].root == Some(root)
  }

  /** ids are the rows of the files, and only they changed. */
  ghost predicate Touched(c: Catalog, after: Catalog, slug: string, root: string, ids: set<nat>) {
    && (forall i | i in ids :: Tagged(after, slug, root, i))
    && (forall i | i in after.rows && i !in ids :: i in c.rows && after.rows[i] == c.rows[i])
    && (forall i | i in c.rows :: i in after.rows && after.rows[i].key == c.rows[i].key)
  }

  lemma TouchOne(c: Catalog, slug: string, root: string, f: File)
    requires WF(c)
    ensures var (after, id) := Touch(c, slug, root, f);
            Touched(c, after, slug, root, {id}) && after.rows[id].key == Key(slug, f.sha)
  {
  }

  lemma TouchedCompose(a: Catalog, b: Catalog, c: Catalog, slug: string, root: string, ids: set<nat>, more: set<nat>)
    requires Touched(a, b, slug, root, ids) && Touched(b, c, slug, root, more)
    ensures Touched(a, c, slug, root, ids + more)
  {
    forall i | i in ids + more ensures Tagged(c, slug, root, i) {
      if i !in more { assert Tagged(b, slug, root, i); }
    }
  }

  lemma {:induction false} TouchAllTouches(c: Catalog, slug: string, root: string, files: seq<File>)
    requires WF(c)
    ensures var (after, ids) := TouchAll(c, slug, root, files); Touched(c, after, slug, root, ids)
  {
    if files == [] {
    } else {
      var n := |files| - 1;
      var (before, ids) := TouchAll(c, slug, root, files[..n]);
      var (after, id) := Touch(before, slug, root, files[n]);
      TouchAllTouches(c, slug, root, files[..n]);
      TouchOne(before, slug, root, files[n]);
      TouchedCompose(c, before, after, slug, root, ids, {id});
    }
  }

  // ---- the sweep ------------------------------------------------------------------------

  /** ingest_keep.id is a 32-bit INTEGER although module ids are 64-bit. */
  const MAX32: nat := 0x7FFF_FFFF

  function Stale(c: Catalog, slug: string, root: string, touched: set<nat>): set<nat> {
    set i | i in c.rows && Tagged(c, slug, root, i) && i !in touched
  }

  function Without(c: Catalog, gone: set<nat>): (out: Catalog)
    requires WF(c)
    ensures WF(out)
  {
    var keys := set k | k in c.byKey && c.byKey[k] in gone;
    Catalog(c.byKey - keys, c.rows - gone, c.next)
  }

  /** None when the temp table refuses an id. A run that touched nothing sweeps nothing. */
  function Sweep(c: Catalog, slug: string, root: string, touched: set<nat>): Option<Catalog>
    requires WF(c)
  {
    if touched == {} then Some(c)
    else if exists i | i in touched :: i > MAX32 then None
    else Some(Without(c, Stale(c, slug, root, touched)))
  }

  /** A sweep after a run that touched something goes through exactly when every touched id
      fits 32 bits; then the rows tagged (slug, root) are exactly those touched and every other
      row is as it was. */
  lemma SweepIsExact(c: Catalog, slug: string, root: string, files: seq<File>)
    requires WF(c) && files != []
    ensures var (after, touched) := TouchAll(c, slug, root, files);
            && (Sweep(after, slug, root, touched).Some? <==> forall i | i in touched :: i <= MAX32)
            && (Sweep(after, slug, root, touched).Some? ==>
                  var swept := Sweep(after, slug, root, touched).value;
                  && (set i | i in swept.rows && Tagged(swept, slug, root, i)) == touched
                  && (forall i | i in c.rows && !Tagged(c, slug, root, i) && i !in touched ::
                        i in swept.rows && swept.rows[i] == c.rows[i])
                  && (forall i | i in c.rows && c.rows[i].key.app != slug ::
                        i in swept.rows && swept.rows[i] == c.rows[i]))
  {
    var (after, touched) := TouchAll(c, slug, root, files);
    TouchAllTouches(c, slug, root, files);
    TouchesSome(c, slug, root, files);
    if Sweep(after, slug, root, touched).Some? {
      SweptRows(c, after, slug, root, touched);
    }
  }

  lemma TouchesSome(c: Catalog, slug: string, root: string, files: seq<File>)
    requires WF(c) && files != []
    ensures TouchAll(c, slug, root, files).1 != {}
  {
    var n := |files| - 1;
    var id := Touch(TouchAll(c, slug, root, files[..n]).0, slug, root, files[n]).1;
    assert id in TouchAll(c, slug, root, files).1;
  }

  lemma SweptRows(c: Catalog, after: Catalog, slug: string, root: string, touched: set<nat>)
    requires WF(after) && Touched(c, after, slug, root, touched)
    ensures var swept := Without(after, Stale(after, slug, root, touched));
            && (set i | i in swept.rows && Tagged(swept, slug, root, i)) == touched
            && (forall i | i in c.rows && !Tagged(c, slug, root, i) && i !in touched ::
                  i in swept.rows && swept.rows[i] == c.rows[i])
            && (forall i | i in c.rows && c.rows[i].key.app != slug :: i in swept.rows && swept.rows[i] == c.rows[i])
  {
    var swept := Without(after, Stale(after, slug, root, touched));
    forall i | i in touched ensures i in swept.rows && Tagged(swept, slug, root, i) {
      assert Tagged(after, slug, root, i);
    }
    forall i | i in c.rows && ((!Tagged(c, slug, root, i) && i !in touched) || c.rows[i].key.app != slug)
      ensures i in swept.rows && swept.rows[i] == c.rows[i]
    {
      assert i in touched ==> Tagged(after, slug, root, i);
    }
  }

  // ---- running again ---------------------------------------------------------------------

  /** The ids the files have. */
  function IdsOf(c: Catalog, slug: string, files: seq<File>): set<nat> {
    if files == [] then {}
    else
      var n := |files| - 1;
      IdsOf(c, slug, files[..n]) + if Key(slug, files[n].sha) in c.byKey then {c.byKey[Key(slug, files[n].sha)]} else {}
  }

  predicate Has(c: Catalog, slug: string, f: File) {
    Key(slug, f.sha) in c.byKey
  }

  ghost predicate AllThere(c: Catalog, slug: string, files: seq<File>) {
    forall i | 0 <= i < |files| :: Has(c, slug, files[i])
  }

  lemma TouchKnown(c: Catalog, slug: string, root: string, f: File)
    requires WF(c) && Has(c, slug, f)
    ensures var (after, id) := Touch(c, slug, root, f);
            after.byKey == c.byKey && after.rows.Keys == c.rows.Keys && id == c.byKey[Key(slug, f.sha)]
  {
  }

  lemma FewerThere(c: Catalog, slug: string, files: seq<File>)
    requires AllThere(c, slug, files) && files != []
    ensures AllThere(c, slug, files[..|files| - 1]) && Has(c, slug, files[|files| - 1])
  {
    assert forall i | 0 <= i < |files| - 1 :: files[..|files| - 1][i] == files[i];
  }

  lemma TouchStep(c: Catalog, slug: string, root: string, files: seq<File>)
    requires WF(c) && files != []
    ensures var (before, ids) := TouchAll(c, slug, root, files[..|files| - 1]);
            var (after, id) := Touch(before, slug, root, files[|files| - 1]);
            TouchAll(c, slug, root, files) == (after, ids + {id})
  {
  }

  lemma {:induction false} TouchAgain(c: Catalog, slug: string, root: string, files: seq<File>)
    requires WF(c) && AllThere(c, slug, files)
    ensures TouchAll(c, slug, root, files).1 == IdsOf(c, slug, files)
    ensures TouchAll(c, slug, root, files).0.byKey == c.byKey
    ensures TouchAll(c, slug, root, files).0.rows.Keys == c.rows.Keys
  {
    if files == [] {
    } else {
      var n := |files| - 1;
      FewerThere(c, slug, files);
      TouchAgain(c, slug, root, files[..n]);
      TouchStep(c, slug, root, files);
      TouchKnown(TouchAll(c, slug, root, files[..n]).0, slug, root, files[n]);
    }
  }

  /** Keys keep their ids. */
  ghost predicate Keeps(c: Catalog, c': Catalog) {
    forall k | k in c.byKey :: k in c'.byKey && c'.byKey[k] == c.byKey[k]
  }

  lemma TouchFinds(c: Catalog, slug: string, root: string, f: File)
    requires WF(c)
    ensures var (after, id) := Touch(c, slug, root, f);
            Keeps(c, after) && Has(after, slug, f) && id == after.byKey[Key(slug, f.sha)]
  {
  }

  lemma {:induction false} SameIds(c: Catalog, c': Catalog, slug: string, files: seq<File>)
    requires AllThere(c, slug, files) && Keeps(c, c')
    ensures AllThere(c', slug, files) && IdsOf(c', slug, files) == IdsOf(c, slug, files)
  {
    forall i | 0 <= i < |files| ensures Has(c', slug, files[i]) { assert Has(c, slug, files[i]); }
    if files == [] {
    } else {
      var n := |files| - 1;
      assert forall i | 0 <= i < n :: files[..n][i] == files[i];
      SameIds(c, c', slug, files[..n]);
      assert Has(c, slug, files[n]);
    }
  }

  lemma {:induction false} TouchAllFinds(c: Catalog, slug: string, root: string, files: seq<File>)
    requires WF(c)
    ensures AllThere(TouchAll(c, slug, root, files).0, slug, files)
    ensures TouchAll(c, slug, root, files).1 == IdsOf(TouchAll(c, slug, root, files).0, slug, files)
  {
    if files == [] {
    } else {
      var n := |files| - 1;
      TouchAllFinds(c, slug, root, files[..n]);
      var (before, ids) := TouchAll(c, slug, root, files[..n]);
      var (after, id) := Touch(before, slug, root, files[n]);
      TouchFinds(before, slug, root, files[n]);
      SameIds(before, after, slug, files[..n]);
      forall i | 0 <= i < |files| ensures Has(after, slug, files[i]) {
        if i < n { assert Has(after, slug, files[..n][i]); }
      }
    }
  }

  /** Re-running on an unchanged tree touches the same rows and deletes nothing. */
  lemma RerunDeletesNothing(c: Catalog, slug: string, root: string, files: seq<File>)
    requires WF(c) && files != []
    requires var (after, touched) := TouchAll(c, slug, root, files); Sweep(after, slug, root, touched).Some?
    ensures var (after, touched) := TouchAll(c, slug, root, files);
            var swept := Sweep(after, slug, root, touched).value;
            WF(swept)
    ensures var (after, touched) := TouchAll(c, slug, root, files);
            var swept := Sweep(after, slug, root, touched).value;
            var (again, touched2) := TouchAll(swept, slug, root, files);
            && touched2 == touched
            && again.rows.Keys == swept.rows.Keys
            && Stale(again, slug, root, touched2) == {}
  {
    var (after, touched) := TouchAll(c, slug, root, files);
    TouchesSome(c, slug, root, files);
    TouchAllTouches(c, slug, root, files);
    TouchAllFinds(c, slug, root, files);
    var swept := Without(after, Stale(after, slug, root, touched));
    SweptRows(c, after, slug, root, touched);
    KeptFiles(after, slug, root, touched, files);
    TouchAgain(swept, slug, root, files);
    var (again, touched2) := TouchAll(swept, slug, root, files);
    TouchAllTouches(swept, slug, root, files);
    forall i | i in again.rows && Tagged(again, slug, root, i) ensures i in touched2 {
      if i !in touched2 { assert i in swept.rows && Tagged(swept, slug, root, i); }
    }
  }

  lemma {:induction false} IdInIdsOf(c: Catalog, slug: string, files: seq<File>, i: nat)
    requires i < |files| && Has(c, slug, files[i])
    ensures c.byKey[Key(slug, files[i].sha)] in IdsOf(c, slug, files)
  {
    var n := |files| - 1;
    if i == n {
    } else {
      IdInIdsOf(c, slug, files[..n], i);
    }
  }

  lemma KeptFiles(after: Catalog, slug: string, root: string, touched: set<nat>, files: seq<File>)
    requires WF(after) && AllThere(after, slug, files) && touched == IdsOf(after, slug, files)
    ensures var swept := Without(after, Stale(after, slug, root, touched));
            AllThere(swept, slug, files) && IdsOf(swept, slug, files) == touched
  {
    var swept := Without(after, Stale(after, slug, root, touched));
    forall i | 0 <= i < |files| ensures Has(swept, slug, files[i]) {
      assert Has(after, slug, files[i]);
      IdInIdsOf(after, slug, files, i);
    }
    assert Keeps(swept, after);
    SameIds(swept, after, slug, files);
  }

  // ---- what the rows hold -----------------------------------------------------------------

  /** The modules of the files with this body, in order. */
  function ModsOf(files: seq<File>, sha: string): seq<Mod> {
    if files == [] then []
    else
      var n := |files| - 1;
      if files[n].sha == sha then ModsOf(files[..n], sha) + [files[n].m] else ModsOf(files[..n], sha)
  }

  /** The language of the last such file. */
  function LangOf(files: seq<File>, sha: string): string
    requires ModsOf(files, sha) != []
  {
    var n := |files| - 1;
    if files[n].sha == sha then files[n].lang else LangOf(files[..n], sha)
  }

  function OldMod(c: Catalog, k: Key): Option<Mod> {
    if k in c.byKey && c.byKey[k] in c.rows then Some(c.rows[c.byKey[k]].m) else None
  }

  predicate SameRow(before: Catalog, after: Catalog, k: Key) {
    && (k in after.byKey <==> k in before.byKey)
    && (k in before.byKey ==>
          var i := before.byKey[k];
          after.byKey[k] == i && i in before.rows && i in after.rows && after.rows[i] == before.rows[i])
  }

  /** The row of (slug, sha) after the files: all their modules upserted in order on what was there,
      the last one's language and the root; under its old id if it had one. */
  ghost predicate Stored(before: Catalog, after: Catalog, slug: string, root: string, files: seq<File>, sha: string)
    requires ModsOf(files, sha) != []
  {
    var k := Key(slug, sha);
    && k in after.byKey && after.byKey[k] in after.rows
    && (k in before.byKey ==> after.byKey[k] == before.byKey[k])
    && var row := after.rows[after.byKey[k]];
       && row.key == k && row.root == Some(root) && row.lang == LangOf(files, sha)
       && Some(row.m) == Fold(OldMod(before, k), ModsOf(files, sha))
  }

  predicate Dropped(before: Catalog, after: Catalog, k: Key) {
    k !in after.byKey && (k in before.byKey ==> before.byKey[k] !in after.rows)
  }

  predicate WasTagged(c: Catalog, k: Key, root: string) {
    k in c.byKey && c.byKey[k] in c.rows && c.rows[c.byKey[k]].root == Some(root)
  }

  ghost predicate RowIngested(before: Catalog, after: Catalog, slug: string, root: string, files: seq<File>,
                              sha: string, swept: bool) {
    if ModsOf(files, sha) != [] then Stored(before, after, slug, root, files, sha)
    else if swept && WasTagged(before, Key(slug, sha), root) then Dropped(before, after, Key(slug, sha))
    else SameRow(before, after, Key(slug, sha))
  }

  /** What these files make of the catalog. Rows of the app that no file has stay as they are,
      unless a sweep drops those tagged with the root; other apps' rows stay. */
  ghost predicate Ingested(before: Catalog, after: Catalog, slug: string, root: string, files: seq<File>, swept: bool) {
    && WF(after)
    && (forall sha :: RowIngested(before, after, slug, root, files, sha, swept))
    && (forall k: Key | k.app != slug :: SameRow(before, after, k))
  }

  lemma ModsOfSnoc(files: seq<File>, sha: string)
    requires files != []
    ensures var n := |files| - 1;
            ModsOf(files, sha) == ModsOf(files[..n], sha) + if files[n].sha == sha then [files[n].m] else []
  {
  }

  /** Another file's upsert leaves the row alone. */
  lemma TouchOther(c: Catalog, slug: string, root: string, f: File, k: Key)
    requires WF(c) && k != Key(slug, f.sha)
    ensures SameRow(c, Touch(c, slug, root, f).0, k)
  {
  }

  lemma TouchOwn(c: Catalog, slug: string, root: string, f: File)
    requires WF(c)
    ensures var after, k := Touch(c, slug, root, f).0, Key(slug, f.sha);
            && k in after.byKey && (k in c.byKey ==> after.byKey[k] == c.byKey[k])
            && after.rows[after.byKey[k]] == Row(k, Upsert(OldMod(c, k), f.m), f.lang, Some(root))
  {
  }

  lemma StoredNext(before: Catalog, mid: Catalog, slug: string, root: string, files: seq<File>, sha: string)
    requires WF(before) && WF(mid) && files != []
    requires RowIngested(before, mid, slug, root, files[..|files| - 1], sha, false)
    ensures RowIngested(before, Touch(mid, slug, root, files[|files| - 1]).0, slug, root, files, sha, false)
  {
    var n := |files| - 1;
    ModsOfSnoc(files, sha);
    if files[n].sha == sha {
      TouchOwn(mid, slug, root, files[n]);
      FoldSnoc(OldMod(before, Key(slug, sha)), ModsOf(files[..n], sha), files[n].m);
    } else {
      TouchOther(mid, slug, root, files[n], Key(slug, sha));
    }
  }

  lemma {:induction false} TouchAllIngests(c: Catalog, slug: string, root: string, files: seq<File>)
    requires WF(c)
    ensures Ingested(c, TouchAll(c, slug, root, files).0, slug, root, files, false)
  {
    if files == [] {
    } else {
      var n := |files| - 1;
      TouchAllIngests(c, slug, root, files[..n]);
      TouchStep(c, slug, root, files);
      var mid := TouchAll(c, slug, root, files[..n]).0;
      forall sha ensures RowIngested(c, TouchAll(c, slug, root, files).0, slug, root, files, sha, false) {
        StoredNext(c, mid, slug, root, files, sha);
      }
      forall k: Key | k.app != slug ensures SameRow(c, TouchAll(c, slug, root, files).0, k) {
        TouchOther(mid, slug, root, files[n], k);
      }
    }
  }

  lemma {:induction false} IdsHaveFiles(c: Catalog, slug: string, files: seq<File>, i: nat)
    requires i in IdsOf(c, slug, files)
    ensures exists sha :: ModsOf(files, sha) != [] && Key(slug, sha) in c.byKey && c.byKey[Key(slug, sha)] == i
  {
    var n := |files| - 1;
    if i in IdsOf(c, slug, files[..n]) {
      IdsHaveFiles(c, slug, files[..n], i);
      var sha :| ModsOf(files[..n], sha) != [] && Key(slug, sha) in c.byKey && c.byKey[Key(slug, sha)] == i;
      ModsOfSnoc(files, sha);
    } else {
      ModsOfSnoc(files, files[n].sha);
    }
  }

  lemma {:induction false} FilesHaveIds(c: Catalog, slug: string, files: seq<File>, sha: string)
    requires ModsOf(files, sha) != [] && Key(slug, sha) in c.byKey
    ensures c.byKey[Key(slug, sha)] in IdsOf(c, slug, files)
  {
    var n := |files| - 1;
    if files[n].sha == sha {
    } else {
      FilesHaveIds(c, slug, files[..n], sha);
    }
  }

  /** A row the sweep does not find stale. */
  lemma KeptBySweep(after: Catalog, slug: string, root: string, touched: set<nat>, k: Key)
    requires WF(after)
    ensures var swept := Without(after, Stale(after, slug, root, touched));
            if k in after.byKey && Tagged(after, slug, root, after.byKey[k]) && after.byKey[k] !in touched
            then Dropped(after, swept, k) else SameRow(after, swept, k)
  {
  }

  lemma SweptRow(before: Catalog, after: Catalog, slug: string, root: string, files: seq<File>, sha: string)
    requires WF(before) && WF(after) && RowIngested(before, after, slug, root, files, sha, false)
    ensures var swept := Without(after, Stale(after, slug, root, IdsOf(after, slug, files)));
            RowIngested(before, swept, slug, root, files, sha, true)
  {
    var k, ids := Key(slug, sha), IdsOf(after, slug, files);
    KeptBySweep(after, slug, root, ids, k);
    if ModsOf(files, sha) != [] {
      FilesHaveIds(after, slug, files, sha);
    } else if k in after.byKey && after.byKey[k] in ids {
      IdsHaveFiles(after, slug, files, after.byKey[k]);
    }
  }

  lemma SweepIngests(before: Catalog, slug: string, root: string, files: seq<File>)
    requires WF(before)
    ensures var (after, touched) := TouchAll(before, slug, root, files);
            Ingested(before, Without(after, Stale(after, slug, root, touched)), slug, root, files, true)
  {
    var (after, touched) := TouchAll(before, slug, root, files);
    TouchAllIngests(before, slug, root, files);
    TouchAllFinds(before, slug, root, files);
    var swept := Without(after, Stale(after, slug, root, touched));
    forall sha ensures RowIngested(before, swept, slug, root, files, sha, true) {
      SweptRow(before, after, slug, root, files, sha);
    }
    forall k: Key | k.app != slug ensures SameRow(before, swept, k) {
      KeptBySweep(after, slug, root, touched, k);
    }
  }

  // ---- runKBIngest --------------------------------------------------------------------------

  /** What goes well for one file: its upsert; tagging, sighting and body; the commit and the
      reopening of the batch it fills. */
  datatype FileLuck = FileLuck(upsert: bool, others: bool, commit: bool, reopen: bool)

  predicate FileWell(l: FileLuck) {
    l.upsert && l.others && l.commit && l.reopen
  }

  ghost predicate AllFilesWell(luck: nat -> FileLuck, n: nat) {
    forall i | 0 <= i <= n :: FileWell(luck(i))
  }

  ghost predicate NoneOfThemFailed(luck: nat -> FileLuck, n: nat) {
    forall i | 0 <= i < n :: luck(i).upsert && luck(i).others
  }

  lemma WellAt(luck: nat -> FileLuck, n: nat, i: nat)
    requires i <= n
    ensures AllFilesWell(luck, n) ==> FileWell(luck(i))
  {
  }

  /** The walk's counters after i of n files. */
  ghost predicate WalkBooks(luck: nat -> FileLuck, n: nat, i: nat, batch: nat,
                        committed: nat, inBatch: nat, batches: nat, aborted: bool) {
    && (!aborted ==> committed + inBatch == i && NoneOfThemFailed(luck, i))
    && committed == Filled(batches, batch) && (batch > 0 ==> inBatch < batch)
    && (AllFilesWell(luck, n) ==> !aborted)
  }

  lemma NoBooks(luck: nat -> FileLuck, n: nat, batch: nat)
    ensures WalkBooks(luck, n, 0, batch, 0, 0, 0, false)
  {
  }

  /** One file more. */
  lemma BooksStep(luck: nat -> FileLuck, n: nat, i: nat, batch: nat,
                  committed: nat, inBatch: nat, batches: nat, aborted: bool,
                  committed': nat, inBatch': nat, aborted': bool, full: bool)
    requires WalkBooks(luck, n, i, batch, committed, inBatch, batches, aborted) && i < n
    requires committed' == (if full then committed + batch else committed) && (batch > 0 ==> inBatch' < batch)
    requires !aborted' ==> committed' + inBatch' == i + 1 && !aborted && luck(i).upsert && luck(i).others
    requires FileWell(luck(i)) && !aborted ==> !aborted'
    ensures WalkBooks(luck, n, i + 1, batch, committed', inBatch', if full then batches + 1 else batches, aborted')
  {
    WellAt(luck, n, i);
  }

  /** The same rows; a rollback does not give identity values back. */
  predicate SameRows(a: Catalog, b: Catalog) {
    a.byKey == b.byKey && a.rows == b.rows && a.next >= b.next
  }

  /** The catalog and the touched ids after each number of files. */
  type History = nat -> (Catalog, set<nat>)

  ghost predicate HistoryAt(at: History, start: Catalog, slug: string, root: string, files: seq<File>, n: nat) {
    WF(start) && WF(at(n).0) && (n <= |files| ==> at(n) == TouchAll(start, slug, root, files[..n]))
  }

  ghost predicate IsHistory(at: History, start: Catalog, slug: string, root: string, files: seq<File>) {
    forall n :: HistoryAt(at, start, slug, root, files, n)
  }

  function HistoryOf(start: Catalog, slug: string, root: string, files: seq<File>): History
    requires WF(start)
  {
    (n: nat) => if n <= |files| then TouchAll(start, slug, root, files[..n]) else (start, {})
  }

  lemma HistoryOfIs(start: Catalog, slug: string, root: string, files: seq<File>)
    requires WF(start)
    ensures IsHistory(HistoryOf(start, slug, root, files), start, slug, root, files)
  {
  }

  lemma NextInHistory(at: History, start: Catalog, slug: string, root: string, files: seq<File>, n: nat)
    requires IsHistory(at, start, slug, root, files) && n < |files|
    ensures WF(at(n).0) && Touch(at(n).0, slug, root, files[n]).1 != 0
    ensures var (after, id) := Touch(at(n).0, slug, root, files[n]); at(n + 1) == (after, at(n).1 + {id})
    ensures at(n).0.next <= at(n + 1).0.next
  {
    assert HistoryAt(at, start, slug, root, files, n) && HistoryAt(at, start, slug, root, files, n + 1);
    TouchStep(start, slug, root, files[..n + 1]);
    assert files[..n + 1][..n] == files[..n];
  }

  class RepoIngester {
    var catalog: Catalog
    var pending: Catalog

    constructor (c: Catalog)
      requires WF(c)
      ensures catalog == c && pending == c
    {
      catalog, pending := c, c;
    }

    /** After n files, `committed` of them on disk, the others in the open batch unless a failed
        statement has aborted it. */
    ghost predicate Midway(at: History, n: nat, committed: nat, touched: set<nat>, aborted: bool)
      reads this
    {
      && committed <= n && SameRows(catalog, at(committed).0)
      && (!aborted ==> pending.next >= catalog.next && (pending, touched) == at(n))
    }

    /** Commits what is open; an aborted transaction cannot commit. */
    method Flush(ghost at: History, ghost n: nat, ghost committed: nat, ghost touched: set<nat>,
                 aborted: bool, commits: bool)
      returns (ok: bool)
      requires Midway(at, n, committed, touched, aborted)
      modifies this
      ensures ok == (commits && !aborted)
      ensures ok ==> Midway(at, n, n, touched, false) && catalog == pending
      ensures !ok ==> SameRows(catalog, at(committed).0)
    {
      ok := commits && !aborted;
      if ok { catalog := pending; } else if !aborted { catalog := catalog.(next := pending.next); }
    }

    /** The next file in an open batch. */
    method Send(ghost at: History, ghost start: Catalog, slug: string, root: string, files: seq<File>, n: nat,
                ghost committed: nat, touched: set<nat>)
      returns (touched': set<nat>)
      requires IsHistory(at, start, slug, root, files) && n < |files| && Midway(at, n, committed, touched, false)
      modifies this
      ensures Midway(at, n + 1, committed, touched', false)
    {
      NextInHistory(at, start, slug, root, files, n);
      var (after, id) := Touch(pending, slug, root, files[n]);
      pending := after;
      touched' := touched;
      if id != 0 { touched' := touched + {id}; }
    }

    /** One file: passed over in an aborted batch; otherwise sent, and the batch committed when it
        is full. */
    method OneFile(ghost at: History, ghost start: Catalog, slug: string, root: string, files: seq<File>, n: nat,
                   committed: nat, inBatch: nat, touched: set<nat>, aborted: bool, batch: nat, l: FileLuck)
      returns (ok: bool, committed': nat, inBatch': nat, touched': set<nat>, aborted': bool, full: bool)
      requires IsHistory(at, start, slug, root, files) && n < |files| && Midway(at, n, committed, touched, aborted)
      requires (!aborted ==> committed + inBatch == n) && (batch > 0 ==> inBatch < batch)
      modifies this
      ensures committed' == (if full then committed + batch else committed) <= n + 1 && (full ==> batch > 0)
      ensures ok && full ==> l.commit && l.reopen
      ensures SameRows(catalog, at(committed').0)
      ensures ok ==>
                && Midway(at, n + 1, committed', touched', aborted')
                && (!aborted' ==> committed' + inBatch' == n + 1 && !aborted && l.upsert && l.others)
                && (batch > 0 ==> inBatch' < batch)
      ensures FileWell(l) && !aborted ==> ok && !aborted'
    {
      ok, committed', inBatch', touched', aborted', full := true, committed, inBatch, touched, true, false;
      if aborted || !l.upsert { return; }
      touched' := Send(at, start, slug, root, files, n, committed, touched);
      aborted', inBatch' := !l.others, inBatch + 1;
      if batch > 0 && inBatch' >= batch {
        ok := Flush(at, n + 1, committed, touched', aborted', l.commit);
        if !ok { return; }
        committed', inBatch', full := committed + inBatch', 0, true;
        ok := l.reopen;
      }
    }

    /** luck(i) is the fate of the i-th file, the last one that of the final commit. A walk that
        fails keeps exactly its full batches; a statement that fails aborts its batch, so the walk
        fails. */
    method Walk(ghost at: History, ghost start: Catalog, slug: string, root: string, files: seq<File>,
                batch: nat, luck: nat -> FileLuck)
      returns (ok: bool, committed: nat, batches: nat, touched: set<nat>)
      requires IsHistory(at, start, slug, root, files) && catalog == pending == start && at(0) == (start, {})
      modifies this
      ensures AllFilesWell(luck, |files|) ==> ok
      ensures !ok ==> committed == Filled(batches, batch) <= |files| && SameRows(catalog, at(committed).0)
      ensures ok ==> NoneOfThemFailed(luck, |files|) && (catalog, touched) == at(|files|) && committed <= |files|
    {
      ok, committed, batches, touched := true, 0, 0, {};
      var inBatch: nat, aborted := 0, false;
      NoBooks(luck, |files|, batch);
      for i := 0 to |files|
        invariant Midway(at, i, committed, touched, aborted)
        invariant WalkBooks(luck, |files|, i, batch, committed, inBatch, batches, aborted)
      {
        ghost var was, had, broken := committed, inBatch, aborted;
        WellAt(luck, |files|, i);
        var full;
        ok, committed, inBatch, touched, aborted, full :=
          OneFile(at, start, slug, root, files, i, committed, inBatch, touched, aborted, batch, luck(i));
        if ok {
          BooksStep(luck, |files|, i, batch, was, had, batches, broken, committed, inBatch, aborted, full);
        }
        if full { batches := batches + 1; }
        if !ok { return; }
      }
      WellAt(luck, |files|, |files|);
      ok := Flush(at, |files|, committed, touched, aborted, luck(|files|).commit);
    }

    /** Walk, then the sweep if asked for; sweepWorks says that the sweep's transaction does not
        fail by itself. A failed walk never sweeps, a dry run changes nothing. */
    method Run(slug: string, root: string, files: seq<File>, batch: nat, sweep: bool, dryRun: bool,
               luck: nat -> FileLuck, sweepWorks: bool)
      returns (ok: bool, committed: nat, batches: nat, touched: set<nat>, swept: bool)
      requires WF(catalog) && pending == catalog
      modifies this
      ensures dryRun ==> ok && catalog == old(catalog) && touched == {}
      ensures AllFilesWell(luck, |files|) ==> ok
      ensures !dryRun && !ok ==>
                && !swept && committed == Filled(batches, batch) <= |files|
                && SameRows(catalog, TouchAll(old(catalog), slug, root, files[..committed]).0)
      ensures !dryRun && ok ==>
                var after := TouchAll(old(catalog), slug, root, files).0;
                && NoneOfThemFailed(luck, |files|) && touched == TouchAll(old(catalog), slug, root, files).1
                && swept == (sweep && Sweeps(after, slug, root, touched, sweepWorks))
                && catalog == if swept then Sweep(after, slug, root, touched).value else after
      ensures !dryRun ==>
                committed <= |files|
                && Ingested(old(catalog), catalog, slug, root, if ok then files else files[..committed],
                            swept && files != [])
    {
      ok, committed, batches, touched, swept := true, 0, 0, {}, false;
      if dryRun { return; }
      ghost var start, at := catalog, HistoryOf(catalog, slug, root, files);
      HistoryOfIs(start, slug, root, files);
      assert HistoryAt(at, start, slug, root, files, |files|) && files[..|files|] == files;
      ok, committed, batches, touched := Walk(at, start, slug, root, files, batch, luck);
      assert !ok ==> HistoryAt(at, start, slug, root, files, committed);
      ghost var done := if ok then files else files[..committed];
      OnDiskIngested(start, catalog, slug, root, done);
      if ok && sweep {
        swept := SweepNow(slug, root, touched, sweepWorks);
        SweptIngested(start, slug, root, files, touched);
      }
    }

    /** orphanSweep: fills the keep table id by id and gives up on one it cannot hold. */
    method SweepNow(slug: string, root: string, touched: set<nat>, works: bool) returns (ok: bool)
      requires WF(catalog)
      modifies this
      ensures ok == Sweeps(old(catalog), slug, root, touched, works)
      ensures catalog == if ok then Sweep(old(catalog), slug, root, touched).value else old(catalog)
    {
      if |touched| == 0 { return true; }
      if !works { return false; }
      var keep: set<nat>, todo := {}, touched;
      while todo != {}
        invariant keep + todo == touched && keep !! todo
        invariant forall i | i in keep :: i <= MAX32
        decreases |todo|
      {
        var id :| id in todo;
        todo := todo - {id};
        if id > MAX32 { return false; }
        keep := keep + {id};
      }
      catalog := Without(catalog, Stale(catalog, slug, root, keep));
      ok := true;
    }
  }

  lemma OnDiskIngested(start: Catalog, c: Catalog, slug: string, root: string, files: seq<File>)
    requires WF(start) && SameRows(c, TouchAll(start, slug, root, files).0)
    ensures Ingested(start, c, slug, root, files, false)
  {
    TouchAllIngests(start, slug, root, files);
    var after := TouchAll(start, slug, root, files).0;
    forall sha ensures RowIngested(start, c, slug, root, files, sha, false) {
      assert RowIngested(start, after, slug, root, files, sha, false);
    }
    forall k: Key | k.app != slug ensures SameRow(start, c, k) { assert SameRow(start, after, k); }
  }

  lemma SweptIngested(start: Catalog, slug: string, root: string, files: seq<File>, touched: set<nat>)
    requires WF(start) && touched == TouchAll(start, slug, root, files).1
    ensures var after := TouchAll(start, slug, root, files).0;
            Sweep(after, slug, root, touched).Some? ==>
              Ingested(start, Sweep(after, slug, root, touched).value, slug, root, files, files != [])
  {
    TouchAllIngests(start, slug, root, files);
    SweepIngests(start, slug, root, files);
    if files != [] { TouchesSome(start, slug, root, files); }
  }

  /** The sweep gets through: nothing to do, or its transaction works and every id fits. */
  ghost predicate Sweeps(c: Catalog, slug: string, root: string, touched: set<nat>, works: bool)
    requires WF(c)
  {
    touched == {} || (works && Sweep(c, slug, root, touched).Some?)
  }
}
