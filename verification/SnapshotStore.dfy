/** The two stores of a snapshot, its folder under apps/<kb_id>/versions and its row in
    knowledge_sources, under capture, gc and the orphan-folder pass. Any step of a command may
    fail or be the last one the process runs. */
module SnapshotStore {
  import opened Basics
  import opened LeafCodec

  // ---- paths ----------------------------------------------------------------------------

  /** A cleaned absolute path, component by component. */
  type Path = seq<string>

  /** q is p or lies somewhere under it. */
  predicate Below(p: Path, q: Path) {
    p <= q
  }

  /** filepath.Join(base, parts...) */
  function Clean(base: Path, parts: seq<string>): Path
    decreases |parts|
  {
    if parts == [] then base
    else if parts[0] == "" || parts[0] == "." then Clean(base, parts[1..])
    else if parts[0] == ".." then Clean(if base == [] then [] else base[..|base| - 1], parts[1..])
    else Clean(base + [parts[0]], parts[1..])
  }

  lemma {:induction false} CleanGoesDown(base: Path, parts: seq<string>)
    requires ".." !in parts
    ensures Below(base, Clean(base, parts))
    decreases |parts|
  {
    if parts == [] {
    } else if parts[0] == "" || parts[0] == "." {
      CleanGoesDown(base, parts[1..]);
    } else {
      CleanGoesDown(base + [parts[0]], parts[1..]);
    }
  }

  // ---- the two stores -----------------------------------------------------------------------

  /** files: directories with files of their own; whole: snapshot folders nothing is missing
      from. */
  datatype Disk = Disk(dirs: set<Path>, files: set<Path>, whole: set<Path>)

  /** root is the kb-store; hash stands for the digest in a clipped version. */
  datatype Site = Site(root: Path, hash: string -> string)

  datatype Ks = Ks(kb: string, version: string, stamp: int)

  /** capturedAt is the clock when the row was inserted, not the stamp inside ks_id. Rows of
      other writers have no ks_id. */
  datatype Row = Row(kb: Option<string>, ks: Option<Ks>, epoch: int, capturedAt: int)

  type Rows = map<nat, Row>

  ghost predicate GoodSite(site: Site) {
    forall v :: IsHash8(site.hash(v))
  }

  ghost predicate DiskOk(d: Disk) {
    && d.whole <= d.files <= d.dirs
    && forall p, q | q in d.dirs && Below(p, q) :: p in d.dirs
  }

  predicate GoodKs(ks: Ks) {
    IsKbId(ks.kb) && MIN64 <= ks.stamp <= MAX64
  }

  function Apps(site: Site): Path {
    site.root + ["apps"]
  }

  function Versions(site: Site, kb: string): Path {
    site.root + ["apps", kb, "versions"]
  }

  /** The leaf may hold slashes, and dots between them: see LeafCodec.LeafDirectories. */
  function FolderOf(site: Site, ks: Ks): Path
    requires GoodKs(ks)
  {
    Clean(Versions(site, ks.kb), Split(Leaf(ks.kb, ks.version, ks.stamp, site.hash), '/'))
  }

  predicate GoodRow(r: Row) {
    r.ks.Some? ==> GoodKs(r.ks.value) && r.kb == Some(r.ks.value.kb)
  }

  predicate GoodRows(rows: Rows) {
    forall i | i in rows :: GoodRow(rows[i])
  }

  /** The unique index on (kb_id, epoch). */
  ghost predicate UniqueEpochs(rows: Rows) {
    forall i, j | i in rows && j in rows && rows[i].kb.Some? ::
      rows[i].kb == rows[j].kb && rows[i].epoch == rows[j].epoch ==> i == j
  }

  /** Row i is a snapshot whose folder is p. */
  predicate OwnedBy(site: Site, rows: Rows, i: nat, p: Path)
    requires GoodRows(rows)
  {
    i in rows && rows[i].ks.Some? && FolderOf(site, rows[i].ks.value) == p
  }

  /** Every committed snapshot has its folder, and no two share one. */
  ghost predicate Safe(site: Site, d: Disk, rows: Rows) {
    && GoodSite(site) && DiskOk(d) && GoodRows(rows)
    && (forall i, p | OwnedBy(site, rows, i, p) :: p in d.whole)
    && (forall i, j, p | OwnedBy(site, rows, i, p) && OwnedBy(site, rows, j, p) :: i == j)
  }

  predicate UnderAny(ps: set<Path>, q: Path) {
    exists p | p in ps :: Below(p, q)
  }

  /** os.RemoveAll of each, with everything below. */
  function RemoveTrees(d: Disk, ps: set<Path>): Disk {
    Disk((set q | q in d.dirs && !UnderAny(ps, q)), (set q | q in d.files && !UnderAny(ps, q)),
         set q | q in d.whole && !UnderAny(ps, q))
  }

  lemma BelowIsTransitive(p: Path, q: Path, r: Path)
    requires Below(p, q) && Below(q, r)
    ensures Below(p, r)
  {
  }

  lemma RemoveTreesIsOk(d: Disk, ps: set<Path>)
    requires DiskOk(d)
    ensures DiskOk(RemoveTrees(d, ps))
  {
    var after := RemoveTrees(d, ps);
    forall p, q | q in after.dirs && Below(p, q) ensures p in after.dirs {
      if UnderAny(ps, p) {
        var o :| o in ps && Below(o, p);
        BelowIsTransitive(o, p, q);
      }
    }
  }

  /** Losing folders no row owns keeps every snapshot. */
  lemma LosingOthersIsSafe(site: Site, d: Disk, after: Disk, rows: Rows)
    requires Safe(site, d, rows) && DiskOk(after)
    requires forall i, p | OwnedBy(site, rows, i, p) && p in d.whole :: p in after.whole
    ensures Safe(site, after, rows)
  {
  }

  // ---- the orphan pass, as a function -------------------------------------------------

  predicate HasPair(rows: Rows, kb: string, capturedAt: int) {
    exists i | i in rows :: rows[i].kb == Some(kb) && rows[i].capturedAt == capturedAt
  }

  /** apps/<any>/versions/<leaf>: the depth at which the walk decodes a name and turns back. */
  predicate LeafDir(site: Site, p: Path) {
    |p| == |site.root| + 4 && Below(Apps(site), p) && p[|site.root| + 2] == "versions"
  }

  /** A directory the scan collects. */
  predicate Orphan(site: Site, rows: Rows, p: Path) {
    && LeafDir(site, p)
    && DecodeOrphanLeaf(Last(p)).Some?
    && !HasPair(rows, DecodeOrphanLeaf(Last(p)).value.kb, DecodeOrphanLeaf(Last(p)).value.capturedAt)
  }

  function Orphans(site: Site, d: Disk, rows: Rows): set<Path> {
    set p | p in d.dirs && Orphan(site, rows, p)
  }

  function AfterPass(site: Site, d: Disk, rows: Rows): Disk {
    RemoveTrees(d, Orphans(site, d, rows))
  }

  /** The directory the walk decodes on its way to p. */
  function Enclosing(site: Site, p: Path): Option<Path> {
    var n := |site.root| + 4;
    if |p| >= n && LeafDir(site, p[..n]) then Some(p[..n]) else None
  }

  lemma EnclosingIsTheOne(site: Site, leaf: Path, p: Path)
    requires LeafDir(site, leaf)
    ensures Below(leaf, p) <==> Enclosing(site, p) == Some(leaf)
  {
    if Below(leaf, p) { assert leaf == p[..|leaf|]; }
  }

  /** What the collector reads from the name of the directory a snapshot's folder is or lies in. */
  function Seen(site: Site, ks: Ks): Option<Pair>
    requires GoodKs(ks)
  {
    match Enclosing(site, FolderOf(site, ks))
    case None => None
    case Some(p) => DecodeOrphanLeaf(Last(p))
  }

  /** The pass does not take a snapshot's folder. */
  predicate Spared(site: Site, rows: Rows, ks: Ks)
    requires GoodKs(ks)
  {
    match Seen(site, ks)
    case None => true
    case Some(pair) => HasPair(rows, pair.kb, pair.capturedAt)
  }

  lemma OrphanIff(site: Site, d: Disk, rows: Rows, ks: Ks)
    requires GoodKs(ks) && DiskOk(d) && FolderOf(site, ks) in d.dirs
    ensures UnderAny(Orphans(site, d, rows), FolderOf(site, ks)) <==> !Spared(site, rows, ks)
  {
    var f := FolderOf(site, ks);
    if UnderAny(Orphans(site, d, rows), f) {
      var p :| p in Orphans(site, d, rows) && Below(p, f);
      EnclosingIsTheOne(site, p, f);
    }
    if !Spared(site, rows, ks) {
      var p := Enclosing(site, f).value;
      assert Below(p, f);
      assert p in Orphans(site, d, rows);
    }
  }

  predicate AllSpared(site: Site, rows: Rows)
    requires GoodRows(rows)
  {
    forall i | i in rows && rows[i].ks.Some? :: GoodRow(rows[i]) && Spared(site, rows, rows[i].ks.value)
  }

  /** A failure-free --orphan-folders pass keeps every live snapshot's folder exactly when each
      one is spared. The two clocks usually differ, so live folders do get removed. */
  lemma PassIsSafeIff(site: Site, d: Disk, rows: Rows)
    requires Safe(site, d, rows)
    ensures Safe(site, AfterPass(site, d, rows), rows) <==> AllSpared(site, rows)
  {
    var after := AfterPass(site, d, rows);
    RemoveTreesIsOk(d, Orphans(site, d, rows));
    forall i, p | OwnedBy(site, rows, i, p) ensures p in after.whole <==> Spared(site, rows, rows[i].ks.value) {
      OrphanIff(site, d, rows, rows[i].ks.value);
    }
    if AllSpared(site, rows) {
      LosingOthersIsSafe(site, d, after, rows);
    } else {
      var i :| i in rows && rows[i].ks.Some? && !Spared(site, rows, rows[i].ks.value);
      assert OwnedBy(site, rows, i, FolderOf(site, rows[i].ks.value));
    }
  }

  /** What the pass is for: no directory it could decode is left without a row, and what lies
      under none of those is as it was. */
  lemma PassLeavesNoOrphan(site: Site, d: Disk, rows: Rows)
    requires DiskOk(d)
    ensures Orphans(site, AfterPass(site, d, rows), rows) == {}
    ensures forall q | q in d.dirs ::
              q in AfterPass(site, d, rows).dirs
              <==> (Enclosing(site, q).Some? ==> !Orphan(site, rows, Enclosing(site, q).value))
    ensures forall q | q in AfterPass(site, d, rows).dirs ::
              && (q in d.whole <==> q in AfterPass(site, d, rows).whole)
              && (q in d.files <==> q in AfterPass(site, d, rows).files)
  {
    var gone := Orphans(site, d, rows);
    forall q | q in gone ensures UnderAny(gone, q) {
      assert Below(q, q);
    }
    forall q | q in d.dirs
      ensures UnderAny(gone, q) <==> Enclosing(site, q).Some? && Orphan(site, rows, Enclosing(site, q).value)
    {
      if UnderAny(gone, q) {
        var p :| p in gone && Below(p, q);
        EnclosingIsTheOne(site, p, q);
      }
      if Enclosing(site, q).Some? && Orphan(site, rows, Enclosing(site, q).value) {
        assert Below(Enclosing(site, q).value, q);
        assert Enclosing(site, q).value in gone;
      }
    }
  }

  // ---- what the collector reads ---------------------------------------------------------------

  /** The directories of the path below the one the collector decodes, dots included. */
  function Deeper(ks: Ks): seq<string> {
    Split(Tail(ks.version, FormatInt(ks.stamp)), '/')[1..]
  }

  /** The first directory under versions. */
  function FirstDir(site: Site, ks: Ks): string
    requires GoodKs(ks)
  {
    Split(Leaf(ks.kb, ks.version, ks.stamp, site.hash), '/')[0]
  }

  lemma FolderStarts(site: Site, ks: Ks)
    requires GoodSite(site) && GoodKs(ks)
    ensures FolderOf(site, ks) == Clean(Versions(site, ks.kb) + [FirstDir(site, ks)], Deeper(ks))
  {
    LeafDirectories(ks.kb, ks.version, ks.stamp, site.hash);
    assert |FirstDir(site, ks)| > 16;
    var parts := Split(Leaf(ks.kb, ks.version, ks.stamp, site.hash), '/');
    assert parts[1..] == Deeper(ks);
  }

  /** No slash after the version's first colon. */
  predicate Flat(ks: Ks) {
    ':' in ks.version ==> '/' !in After(ks.version, ':')
  }

  lemma FlatFolder(site: Site, ks: Ks)
    requires GoodSite(site) && GoodKs(ks) && Flat(ks)
    ensures Deeper(ks) == [] && FolderOf(site, ks) == Versions(site, ks.kb) + [FirstDir(site, ks)]
  {
    NoSlash(ks.version, ks.stamp);
    FolderStarts(site, ks);
  }

  lemma SeenBelow(site: Site, ks: Ks, leaf: Path)
    requires GoodKs(ks) && LeafDir(site, leaf) && Below(leaf, FolderOf(site, ks))
    ensures Seen(site, ks) == DecodeOrphanLeaf(Last(leaf))
  {
    EnclosingIsTheOne(site, leaf, FolderOf(site, ks));
  }

  lemma VersionsAreLeafDirs(site: Site, kb: string, name: string)
    ensures LeafDir(site, Versions(site, kb) + [name])
  {
    var leaf := Versions(site, kb) + [name];
    assert Apps(site) == leaf[..|site.root| + 1];
  }

  /** Unless the version climbs out with "..", the collector reads the pair LeafCodec's
      DecodeOfEncode names: the snapshot's own stamp when the version has no colon, nothing when
      no slash follows the colon, and otherwise whatever number the version's text puts there. */
  lemma SeenIs(site: Site, ks: Ks)
    requires GoodSite(site) && GoodKs(ks)
    ensures ".." !in Deeper(ks) ==> Seen(site, ks) == FirstPair(ks.kb, ks.version, ks.stamp)
    ensures ':' !in ks.version ==> Seen(site, ks) == Some(Pair(ks.kb, ks.stamp))
    ensures ':' in ks.version && Flat(ks) ==> Seen(site, ks) == None
  {
    DecodeOfEncode(ks.kb, ks.version, ks.stamp, site.hash);
    if Flat(ks) { FlatFolder(site, ks); }
    if ".." !in Deeper(ks) {
      var leaf := Versions(site, ks.kb) + [FirstDir(site, ks)];
      FolderStarts(site, ks);
      CleanGoesDown(leaf, Deeper(ks));
      VersionsAreLeafDirs(site, ks.kb, FirstDir(site, ks));
      SeenBelow(site, ks, leaf);
    }
  }

  // ---- a capture, as a function ---------------------------------------------------------

  function NewRow(ks: Ks, epoch: int, now: int): Row {
    Row(Some(ks.kb), Some(ks), epoch, now)
  }

  /** os.Rename goes through: no such directory yet, or an empty one. */
  predicate Free(site: Site, d: Disk, ks: Ks)
    requires GoodKs(ks)
  {
    FolderOf(site, ks) !in d.files && !exists q | q in d.dirs :: q != FolderOf(site, ks) && Below(FolderOf(site, ks), q)
  }

  /** That is: the target does not exist, or is a directory with nothing in it. */
  lemma FreeMeans(site: Site, d: Disk, ks: Ks)
    requires GoodKs(ks) && DiskOk(d)
    ensures var f := FolderOf(site, ks);
            Free(site, d, ks) <==> f !in d.dirs || (f !in d.files && forall q | q in d.dirs && f <= q :: q == f)
  {
    var f := FolderOf(site, ks);
    if f !in d.dirs {
      forall q | q in d.dirs ensures !Below(f, q) {
      }
    }
    if forall q | q in d.dirs && f <= q :: q == f {
      forall q | q in d.dirs && q != f ensures !Below(f, q) {
      }
    }
  }

  /** A path and the directories on the way to it. */
  function Above(p: Path): set<Path> {
    set n | 0 <= n <= |p| :: p[..n]
  }

  function Placed(d: Disk, p: Path): Disk {
    Disk(d.dirs + Above(p), d.files + {p}, d.whole + {p})
  }

  lemma AboveIsOk(d: Disk, p: Path)
    requires DiskOk(d)
    ensures DiskOk(d.(dirs := d.dirs + Above(p))) && DiskOk(Placed(d, p))
  {
    assert p == p[..|p|] && p in Above(p);
    forall o, q | q in d.dirs + Above(p) && Below(o, q) ensures o in d.dirs + Above(p) {
      if q !in d.dirs { assert o == p[..|o|]; }
    }
  }

  /** The rename only succeeds onto an absent or empty target, so it never touches a live
      snapshot, and the row that follows owns its folder alone. */
  lemma CaptureIsSafe(site: Site, d: Disk, rows: Rows, id: nat, ks: Ks, epoch: int, now: int)
    requires Safe(site, d, rows) && GoodKs(ks) && id !in rows && Free(site, d, ks)
    ensures Safe(site, Placed(d, FolderOf(site, ks)), rows)
    ensures Safe(site, Placed(d, FolderOf(site, ks)), rows[id := NewRow(ks, epoch, now)])
  {
    var p := FolderOf(site, ks);
    var rows' := rows[id := NewRow(ks, epoch, now)];
    AboveIsOk(d, p);
    forall i, q | OwnedBy(site, rows', i, q) ensures i == id || (OwnedBy(site, rows, i, q) && q != p) {
      if i != id { assert OwnedBy(site, rows, i, q); }
    }
  }

  /** The row a capture writes spares its own folder. */
  predicate SelfSpared(site: Site, ks: Ks, now: int)
    requires GoodKs(ks)
  {
    Seen(site, ks).None? || Seen(site, ks) == Some(Pair(ks.kb, now))
  }

  /** One capture, then one failure-free pass, where every earlier snapshot is spared: the new
      one keeps its folder exactly when it was spared before or its own row spares it. For a
      version without a colon the latter means both clock reads fell in the same millisecond. */
  lemma CaptureThenPassIff(site: Site, d: Disk, rows: Rows, id: nat, ks: Ks, epoch: int, now: int)
    requires Safe(site, d, rows) && GoodKs(ks) && id !in rows && Free(site, d, ks) && AllSpared(site, rows)
    ensures var d', rows' := Placed(d, FolderOf(site, ks)), rows[id := NewRow(ks, epoch, now)];
            Safe(site, AfterPass(site, d', rows'), rows') <==> Spared(site, rows, ks) || SelfSpared(site, ks, now)
    ensures ':' !in ks.version ==> (SelfSpared(site, ks, now) <==> now == ks.stamp)
  {
    var rows' := rows[id := NewRow(ks, epoch, now)];
    CaptureIsSafe(site, d, rows, id, ks, epoch, now);
    PassIsSafeIff(site, Placed(d, FolderOf(site, ks)), rows');
    PairsGrow(rows, id, NewRow(ks, epoch, now));
    SeenIs(site, ks);
    assert rows'[id].kb == Some(ks.kb) && rows'[id].capturedAt == now;
    forall i | i in rows && rows[i].ks.Some? ensures GoodRow(rows'[i]) && Spared(site, rows', rows[i].ks.value) {
      assert GoodRow(rows[i]) && Spared(site, rows, rows[i].ks.value);
    }
    assert Spared(site, rows', ks) <==> AllSpared(site, rows');
  }

  /** A pass that runs between the rename and the insert of another process's capture: the
      snapshot ends up with its folder exactly when it was spared before it had a row, so a
      version without a colon is lost unless some row of its app carries its stamp already. */
  lemma PassBeforeRowIff(site: Site, d: Disk, rows: Rows, id: nat, ks: Ks, epoch: int, now: int)
    requires Safe(site, d, rows) && GoodKs(ks) && id !in rows && Free(site, d, ks) && AllSpared(site, rows)
    ensures var d' := Placed(d, FolderOf(site, ks));
            Safe(site, AfterPass(site, d', rows), rows[id := NewRow(ks, epoch, now)]) <==> Spared(site, rows, ks)
    ensures ':' !in ks.version ==> (Spared(site, rows, ks) <==> HasPair(rows, ks.kb, ks.stamp))
  {
    var d', rows' := Placed(d, FolderOf(site, ks)), rows[id := NewRow(ks, epoch, now)];
    var after := AfterPass(site, d', rows);
    CaptureIsSafe(site, d, rows, id, ks, epoch, now);
    RemoveTreesIsOk(d', Orphans(site, d', rows));
    SeenIs(site, ks);
    OrphanIff(site, d', rows, ks);
    assert OwnedBy(site, rows', id, FolderOf(site, ks));
    forall i, p | OwnedBy(site, rows', i, p) && i != id ensures p in after.whole {
      assert OwnedBy(site, rows, i, p) && GoodRow(rows[i]) && Spared(site, rows, rows[i].ks.value);
      OrphanIff(site, d', rows, rows[i].ks.value);
    }
    if Spared(site, rows, ks) { LosingOthersIsSafe(site, d', after, rows'); }
  }

  lemma PairsGrow(rows: Rows, id: nat, row: Row)
    requires id !in rows
    ensures forall kb, t | HasPair(rows, kb, t) :: HasPair(rows[id := row], kb, t)
    ensures forall kb, t | HasPair(rows[id := row], kb, t) ::
              HasPair(rows, kb, t) || (row.kb == Some(kb) && row.capturedAt == t)
  {
    var rows' := rows[id := row];
    forall kb, t | HasPair(rows, kb, t) ensures HasPair(rows', kb, t) {
      var i :| i in rows && rows[i].kb == Some(kb) && rows[i].capturedAt == t;
      assert rows'[i] == rows[i];
    }
  }

  const KB := "0123456789abcdef"

  lemma KbIsKbId()
    ensures IsKbId(KB)
  {
  }

  /** One capture into an empty store, and a pass. */
  lemma FirstCaptureThenPass(site: Site, ks: Ks, now: int)
    requires GoodSite(site) && GoodKs(ks)
    ensures var rows: Rows := map[0 := NewRow(ks, 1, now)];
            var d := Placed(Disk({}, {}, {}), FolderOf(site, ks));
            Safe(site, d, rows) && (Safe(site, AfterPass(site, d, rows), rows) <==> SelfSpared(site, ks, now))
  {
    var none: Rows := map[];
    CaptureIsSafe(site, Disk({}, {}, {}), none, 0, ks, 1, now);
    CaptureThenPassIff(site, Disk({}, {}, {}), none, 0, ks, 1, now);
    assert none[0 := NewRow(ks, 1, now)] == map[0 := NewRow(ks, 1, now)];
  }

  /** Version 1.0 with a stamp of 100, inserted one millisecond later: the folder is gone and
      the row is left. */
  lemma LiveFolderRemoved(site: Site)
    requires GoodSite(site)
    ensures GoodKs(Ks(KB, "1.0", 100)) && !SelfSpared(site, Ks(KB, "1.0", 100), 101)
    ensures var rows: Rows := map[0 := NewRow(Ks(KB, "1.0", 100), 1, 101)];
            var d := Placed(Disk({}, {}, {}), FolderOf(site, Ks(KB, "1.0", 100)));
            Safe(site, d, rows) && !Safe(site, AfterPass(site, d, rows), rows)
  {
    KbIsKbId();
    SeenIs(site, Ks(KB, "1.0", 100));
    FirstCaptureThenPass(site, Ks(KB, "1.0", 100), 101);
  }

  lemma HundredIs()
    ensures FormatInt(100) == "100" && FormatInt(2) == "2" && ParseInt("2") == Some(2)
  {
    assert Digits(10) == "10" && Digits(2) == "2";
    ValueOfDigits(2);
    ParseDigits("2");
  }

  lemma CutNested()
    ensures ':' in "1:2/3" && Before("1:2/3", ':') == "1" && After("1:2/3", ':') == "2/3"
  {
    CutAt("1", ':', "2/3");
    assert "1" + [':'] + "2/3" == "1:2/3";
  }

  lemma SplitNested()
    ensures Split("2/3:100", '/') == ["2", "3:100"] && Before("2/3:100", '/') == "2" && Split("2", '_') == ["2"]
  {
    SplitFirst("2", '/', "3:100");
    CutAt("2", '/', "3:100");
    assert "2" + ['/'] + "3:100" == "2/3:100";
  }

  lemma TailOfNested()
    ensures Tail("1:2/3", FormatInt(100)) == "2/3:100"
  {
    CutNested();
    HundredIs();
    assert "2/3" + [':'] + "100" == "2/3:100";
  }

  lemma ReadsTwo()
    ensures FirstPair(KB, "1:2/3", 100) == Some(Pair(KB, 2))
    ensures Deeper(Ks(KB, "1:2/3", 100)) == ["3:100"]
  {
    TailOfNested();
    SplitNested();
    HundredIs();
  }

  /** Version 1:2/3 with a stamp of 100, both clocks reading the same millisecond: its folder
      lies in a directory that decodes to 2, so the pass takes it all the same. */
  lemma NestedFolderRemoved(site: Site)
    requires GoodSite(site)
    ensures GoodKs(Ks(KB, "1:2/3", 100)) && Seen(site, Ks(KB, "1:2/3", 100)) == Some(Pair(KB, 2))
    ensures var rows: Rows := map[0 := NewRow(Ks(KB, "1:2/3", 100), 1, 100)];
            var d := Placed(Disk({}, {}, {}), FolderOf(site, Ks(KB, "1:2/3", 100)));
            Safe(site, d, rows) && !Safe(site, AfterPass(site, d, rows), rows)
  {
    KbIsKbId();
    ReadsTwo();
    SeenIs(site, Ks(KB, "1:2/3", 100));
    FirstCaptureThenPass(site, Ks(KB, "1:2/3", 100), 100);
  }

  // ---- gc, as a function ------------------------------------------------------------------

  function Folders(site: Site, rows: Rows, ids: set<nat>): set<Path>
    requires GoodRows(rows)
  {
    set i | i in ids && i in rows && rows[i].ks.Some? && GoodRow(rows[i]) :: FolderOf(site, rows[i].ks.value)
  }

  /** What gc leaves of the folders: rows are deleted first, then each purged row's folder. */
  function AfterGc(site: Site, d: Disk, rows: Rows, ids: set<nat>): Disk
    requires GoodRows(rows)
  {
    RemoveTrees(d, Folders(site, rows, ids))
  }

  /** No remaining snapshot's folder lies in a purged one's. */
  ghost predicate NoneInside(site: Site, rows: Rows, ids: set<nat>)
    requires GoodRows(rows)
  {
    forall i, j, p, q | i in ids && j !in ids && OwnedBy(site, rows, i, p) && OwnedBy(site, rows, j, q) :: !Below(p, q)
  }

  lemma FolderOfId(site: Site, rows: Rows, ids: set<nat>, i: nat, p: Path)
    requires GoodRows(rows) && i in ids && OwnedBy(site, rows, i, p)
    ensures p in Folders(site, rows, ids)
  {
    assert GoodRow(rows[i]);
  }

  lemma OutsideIffNone(site: Site, rows: Rows, ids: set<nat>)
    requires GoodRows(rows)
    ensures NoneInside(site, rows, ids)
            <==> (forall j, q | j !in ids && OwnedBy(site, rows, j, q) :: !UnderAny(Folders(site, rows, ids), q))
  {
    var gone := Folders(site, rows, ids);
    if NoneInside(site, rows, ids) {
      forall j, q | j !in ids && OwnedBy(site, rows, j, q) ensures !UnderAny(gone, q) {
      }
    } else {
      var i, j, p, q :| i in ids && j !in ids && OwnedBy(site, rows, i, p) && OwnedBy(site, rows, j, q) && Below(p, q);
      FolderOfId(site, rows, ids, i, p);
      assert UnderAny(gone, q);
    }
  }

  /** Taking away at most what lies in purged folders keeps the other snapshots if none of
      theirs does. */
  lemma PurgeIsSafe(site: Site, d: Disk, rows: Rows, ids: set<nat>, after: Disk)
    requires Safe(site, d, rows) && DiskOk(after) && NoneInside(site, rows, ids)
    requires forall q | q in d.whole && !UnderAny(Folders(site, rows, ids), q) :: q in after.whole
    ensures Safe(site, after, rows - ids)
  {
    OutsideIffNone(site, rows, ids);
    forall i, p | OwnedBy(site, rows - ids, i, p) ensures p in after.whole && OwnedBy(site, rows, i, p) {
      assert OwnedBy(site, rows, i, p);
    }
  }

  /** gc of given rows without failures keeps every other snapshot exactly when none of their
      folders lies in a purged one. */
  lemma PurgeIsSafeIff(site: Site, d: Disk, rows: Rows, ids: set<nat>)
    requires Safe(site, d, rows)
    ensures Safe(site, AfterGc(site, d, rows, ids), rows - ids) <==> NoneInside(site, rows, ids)
  {
    var gone := Folders(site, rows, ids);
    var after := AfterGc(site, d, rows, ids);
    RemoveTreesIsOk(d, gone);
    OutsideIffNone(site, rows, ids);
    if NoneInside(site, rows, ids) {
      PurgeIsSafe(site, d, rows, ids, after);
    } else {
      var j, q :| j !in ids && OwnedBy(site, rows, j, q) && UnderAny(gone, q);
      assert OwnedBy(site, rows - ids, j, q);
    }
  }

  /** On disk exactly what lies at or under a purged row's folder is gone. */
  lemma GcRemovesExactly(site: Site, d: Disk, rows: Rows, ids: set<nat>, q: Path)
    requires GoodRows(rows)
    ensures var gone := exists i | i in ids && i in rows :: rows[i].ks.Some? && GoodRow(rows[i])
                                                             && FolderOf(site, rows[i].ks.value) <= q;
            var after := AfterGc(site, d, rows, ids);
            && (q in after.dirs <==> q in d.dirs && !gone)
            && (q in after.files <==> q in d.files && !gone)
            && (q in after.whole <==> q in d.whole && !gone)
  {
    if i :| i in ids && i in rows && rows[i].ks.Some? && GoodRow(rows[i]) && FolderOf(site, rows[i].ks.value) <= q {
      assert FolderOf(site, rows[i].ks.value) in Folders(site, rows, ids);
      assert Below(FolderOf(site, rows[i].ks.value), q);
    }
  }

  ghost predicate NoNesting(site: Site, rows: Rows)
    requires GoodRows(rows)
  {
    forall i, j, p, q | OwnedBy(site, rows, i, p) && OwnedBy(site, rows, j, q) && i != j :: !Below(p, q)
  }

  /** gc is safe whatever it selects exactly when no snapshot's folder lies in another's. */
  lemma GcIsSafeIff(site: Site, d: Disk, rows: Rows)
    requires Safe(site, d, rows)
    ensures (forall ids :: Safe(site, AfterGc(site, d, rows, ids), rows - ids)) <==> NoNesting(site, rows)
  {
    if NoNesting(site, rows) {
      forall ids ensures Safe(site, AfterGc(site, d, rows, ids), rows - ids) {
        PurgeIsSafeIff(site, d, rows, ids);
      }
    } else {
      var i, j, p, q :| OwnedBy(site, rows, i, p) && OwnedBy(site, rows, j, q) && i != j && Below(p, q);
      PurgeIsSafeIff(site, d, rows, {i});
      assert !NoneInside(site, rows, {i});
    }
  }

  /** Snapshots whose versions hold no slash after a colon never lie in one another. */
  lemma FlatNeverNests(site: Site, a: Ks, b: Ks)
    requires GoodSite(site) && GoodKs(a) && GoodKs(b) && Flat(a) && Flat(b)
    ensures Below(FolderOf(site, a), FolderOf(site, b)) ==> FolderOf(site, a) == FolderOf(site, b)
  {
    FlatFolder(site, a);
    FlatFolder(site, b);
  }

  lemma CleanOne(base: Path, name: string)
    requires name != "" && name != "." && name != ".."
    ensures Clean(base, [name]) == base + [name]
  {
    assert Clean(base + [name], []) == base + [name];
  }

  lemma SameFirstDir(site: Site, a: Ks, b: Ks)
    requires GoodSite(site) && GoodKs(a) && GoodKs(b) && a.kb == b.kb
    requires Before(a.version, ':') == Before(b.version, ':')
    requires FirstTail(a.version, a.stamp) == FirstTail(b.version, b.stamp)
    ensures FirstDir(site, a) == FirstDir(site, b)
  {
    LeafDirectories(a.kb, a.version, a.stamp, site.hash);
    LeafDirectories(b.kb, b.version, b.stamp, site.hash);
  }

  lemma FirstTails()
    ensures FirstTail("1", 2) == "2" == FirstTail("1:2/3", 100)
  {
    HundredIs();
    TailOfNested();
    SplitNested();
  }

  /** Version 1 with a stamp of 2 owns the folder in which version 1:2/3 with a stamp of 100
      has its own. */
  lemma NestedFolder(site: Site)
    requires GoodSite(site)
    ensures GoodKs(Ks(KB, "1", 2)) && GoodKs(Ks(KB, "1:2/3", 100))
    ensures FolderOf(site, Ks(KB, "1:2/3", 100)) == FolderOf(site, Ks(KB, "1", 2)) + ["3:100"]
  {
    var outer, inner := Ks(KB, "1", 2), Ks(KB, "1:2/3", 100);
    KbIsKbId();
    FirstTails();
    CutNested();
    SameFirstDir(site, outer, inner);
    FlatFolder(site, outer);
    FolderStarts(site, inner);
    ReadsTwo();
    CleanOne(Versions(site, KB) + [FirstDir(site, inner)], "3:100");
  }

  lemma FreeInside(site: Site, outer: Ks, inner: Ks)
    requires GoodKs(outer) && GoodKs(inner) && |FolderOf(site, inner)| > |FolderOf(site, outer)|
    ensures Free(site, Placed(Disk({}, {}, {}), FolderOf(site, outer)), inner)
  {
  }

  lemma TwoRows(one: Rows, a: Row, b: Row)
    requires one == map[0 := a]
    ensures one[1 := b] == map[0 := a, 1 := b]
  {
  }

  /** gc of the one takes the other's live folder. */
  lemma NestedFolderPurged(site: Site)
    requires GoodSite(site)
    ensures GoodKs(Ks(KB, "1", 2)) && GoodKs(Ks(KB, "1:2/3", 100))
    ensures var rows: Rows := map[0 := NewRow(Ks(KB, "1", 2), 1, 2), 1 := NewRow(Ks(KB, "1:2/3", 100), 2, 100)];
            exists d :: Safe(site, d, rows) && !Safe(site, AfterGc(site, d, rows, {0}), rows - {0})
  {
    var outer, inner := Ks(KB, "1", 2), Ks(KB, "1:2/3", 100);
    var one: Rows := map[0 := NewRow(outer, 1, 2)];
    var rows: Rows := map[0 := NewRow(outer, 1, 2), 1 := NewRow(inner, 2, 100)];
    NestedFolder(site);
    FirstCaptureThenPass(site, outer, 2);
    var d := Placed(Disk({}, {}, {}), FolderOf(site, outer));
    FreeInside(site, outer, inner);
    CaptureIsSafe(site, d, one, 1, inner, 2, 100);
    TwoRows(one, NewRow(outer, 1, 2), NewRow(inner, 2, 100));
    var d' := Placed(d, FolderOf(site, inner));
    assert OwnedBy(site, rows, 0, FolderOf(site, outer)) && OwnedBy(site, rows, 1, FolderOf(site, inner));
    assert Below(FolderOf(site, outer), FolderOf(site, inner));
    PurgeIsSafeIff(site, d', rows, {0});
    assert !NoneInside(site, rows, {0});
  }
}
