/** What a folder name looks like for every version text, and which names the collector reads. */
module FolderNames {
  import opened Basics
  import opened LeafCodec
  import opened SnapshotStore

  // ---- the version segment ----------------------------------------------------------------

  predicate Forbidden(c: char) {
    || c as int < 32 || c == '<' || c == '>' || c == ':' || c == '|' || c == '?' || c == '*'
    || c == '"' || c == '\\' || c == '/'
  }

  /** u is v with an underscore for every forbidden character. */
  predicate Underscored(v: string, u: string) {
    |u| == |v| && forall i | 0 <= i < |v| :: u[i] == if Forbidden(v[i]) then '_' else v[i]
  }

  /** Position k is not an underscore, or the last one of its run. */
  predicate Stays(u: string, k: nat)
    requires k < |u|
  {
    u[k] != '_' || k + 1 == |u| || u[k + 1] != '_'
  }

  /** w holds the characters of u at the positions ks, in order: those that stay and no others. */
  ghost predicate Squeezed(u: string, w: string, ks: seq<nat>) {
    && |ks| == |w|
    && (forall i | 0 <= i < |ks| :: ks[i] < |u| && w[i] == u[ks[i]] && Stays(u, ks[i]))
    && (forall i, j | 0 <= i < j < |ks| :: ks[i] < ks[j])
    && (forall k: nat | k < |u| && Stays(u, k) :: k in ks)
  }

  predicate DotOrSpace(c: char) {
    c == '.' || c == ' '
  }

  /** c is w without its trailing dots and spaces. */
  predicate Trimmed(w: string, c: string) {
    && c <= w && (c == "" || !DotOrSpace(c[|c| - 1]))
    && forall i | |c| <= i < |w| :: DotOrSpace(w[i])
  }

  lemma {:induction false} ReplaceUnderscores(v: string)
    ensures Underscored(v, ReplaceReserved(v))
  {
    if v == "" {
    } else {
      ReplaceUnderscores(v[1..]);
      assert Reserved(v[0]) <==> Forbidden(v[0]);
    }
  }

  function Shifted(ks: seq<nat>): (out: seq<nat>)
    ensures |out| == |ks| && forall i | 0 <= i < |ks| :: out[i] == ks[i] + 1
  {
    seq(|ks|, i requires 0 <= i < |ks| => ks[i] + 1)
  }

  lemma StaysLater(u: string, k: nat)
    requires 0 < k < |u|
    ensures Stays(u, k) <==> Stays(u[1..], k - 1)
  {
  }

  lemma InShifted(ks: seq<nat>, k: nat)
    requires k > 0 && k - 1 in ks
    ensures k in Shifted(ks)
  {
    var i :| 0 <= i < |ks| && ks[i] == k - 1;
    assert Shifted(ks)[i] == k;
  }

  /** One character more in front, which does not stay or does. */
  lemma SqueezeSkip(u: string, w: string, ks: seq<nat>)
    requires u != "" && Squeezed(u[1..], w, ks) && !Stays(u, 0)
    ensures Squeezed(u, w, Shifted(ks))
  {
    forall k: nat | k < |u| && Stays(u, k) ensures k in Shifted(ks) {
      StaysLater(u, k);
      InShifted(ks, k);
    }
    forall i | 0 <= i < |ks| ensures Stays(u, Shifted(ks)[i]) { StaysLater(u, ks[i] + 1); }
  }

  /** 0, and then ks one further on. */
  function Fronted(ks: seq<nat>): (out: seq<nat>)
    ensures |out| == |ks| + 1 && out[0] == 0 && forall i | 0 < i <= |ks| :: out[i] == ks[i - 1] + 1
    ensures forall k | k in Shifted(ks) :: k in out
  {
    [0] + Shifted(ks)
  }

  lemma FrontStays(u: string, w: string, ks: seq<nat>)
    requires u != "" && Squeezed(u[1..], w, ks) && Stays(u, 0)
    ensures forall k: nat | k < |u| && Stays(u, k) :: k in Fronted(ks)
  {
    forall k: nat | k < |u| && Stays(u, k) ensures k in Fronted(ks) {
      if k > 0 {
        StaysLater(u, k);
        InShifted(ks, k);
      } else {
        assert Fronted(ks)[0] == k;
      }
    }
  }

  /** Where a character of w comes from, counted with one more in front. */
  lemma TakenLater(u: string, w: string, ks: seq<nat>, i: nat)
    requires u != "" && Squeezed(u[1..], w, ks) && i < |ks|
    ensures ks[i] + 1 < |u| && w[i] == u[ks[i] + 1] && Stays(u, ks[i] + 1)
  {
    StaysLater(u, ks[i] + 1);
  }

  lemma SqueezeFront(u: string, w: string, ks: seq<nat>)
    requires u != "" && Squeezed(u[1..], w, ks) && Stays(u, 0)
    ensures Squeezed(u, [u[0]] + w, Fronted(ks))
  {
    var out, all := Fronted(ks), [u[0]] + w;
    FrontStays(u, w, ks);
    forall i | 0 <= i < |out| ensures out[i] < |u| && all[i] == u[out[i]] && Stays(u, out[i]) {
      if i > 0 { TakenLater(u, w, ks, i - 1); }
    }
  }

  lemma {:induction false} CollapseSqueezes(u: string) returns (ks: seq<nat>)
    ensures Squeezed(u, CollapseRuns(u), ks)
  {
    if u == "" {
      ks := [];
    } else {
      ks := CollapseSqueezes(u[1..]);
      CollapseFront(u);
      if Stays(u, 0) {
        SqueezeFront(u, CollapseRuns(u[1..]), ks);
        ks := Fronted(ks);
      } else {
        SqueezeSkip(u, CollapseRuns(u[1..]), ks);
        ks := Shifted(ks);
      }
    }
  }

  lemma CollapseFront(u: string)
    requires u != ""
    ensures CollapseRuns(u) == if Stays(u, 0) then [u[0]] + CollapseRuns(u[1..]) else CollapseRuns(u[1..])
  {
  }

  lemma {:induction false} TrimTrims(w: string)
    ensures Trimmed(w, TrimRight(w))
  {
    if w == "" || !DotOrSpace(w[|w| - 1]) {
    } else {
      TrimTrims(w[..|w| - 1]);
    }
  }

  /** The version segment, for every text and digest: forbidden characters become underscores, of
      every run of underscores one stays, every other character stays in order, trailing dots and
      spaces go; "unknown" stands for nothing left, and past 64 bytes the digest follows. */
  lemma VersionSegmentIs(v: string, hash: string -> string)
      returns (u: string, w: string, ks: seq<nat>, c: string)
    ensures Underscored(v, u) && Squeezed(u, w, ks) && Trimmed(w, c)
    ensures SanitizeVersion(v, hash)
            == if c == "" then "unknown" else if |c| <= 64 then c else c[..64] + "_" + hash(v)
  {
    u := ReplaceReserved(v);
    w := CollapseRuns(u);
    c := TrimRight(w);
    ReplaceUnderscores(v);
    ks := CollapseSqueezes(u);
    TrimTrims(w);
  }

  /** A version that is a good name as it is. */
  predicate CleanVersion(v: string) {
    && 1 <= |v| <= 64 && !DotOrSpace(v[|v| - 1])
    && (forall i | 0 <= i < |v| :: !Forbidden(v[i]))
    && (forall i | 0 <= i < |v| - 1 :: !(v[i] == '_' && v[i + 1] == '_'))
  }

  lemma {:induction false} NothingToReplace(v: string)
    requires forall i | 0 <= i < |v| :: !Forbidden(v[i])
    ensures ReplaceReserved(v) == v
  {
    if v == "" {
    } else {
      assert !Forbidden(v[0]) && !Reserved(v[0]);
      NothingToReplace(v[1..]);
    }
  }

  lemma {:induction false} NothingToCollapse(v: string)
    requires forall i | 0 <= i < |v| - 1 :: !(v[i] == '_' && v[i + 1] == '_')
    ensures CollapseRuns(v) == v
  {
    if |v| < 2 {
    } else {
      assert !(v[0] == '_' && v[1] == '_');
      NothingToCollapse(v[1..]);
    }
  }

  /** It is its own segment. */
  lemma CleanVersionStays(v: string, hash: string -> string)
    requires CleanVersion(v)
    ensures SanitizeVersion(v, hash) == v
  {
    NothingToReplace(v);
    NothingToCollapse(v);
  }

  lemma CleanHasNoColon(v: string)
    requires CleanVersion(v)
    ensures ':' !in v
  {
    assert forall i | 0 <= i < |v| :: !Forbidden(v[i]);
  }

  lemma LastUnderscore(a: string, b: string, a': string, b': string)
    requires '_' !in b && '_' !in b' && a + "_" + b == a' + "_" + b'
    ensures a == a' && b == b'
  {
    assert a + "_" + b == a + ['_'] + b && a' + "_" + b' == a' + ['_'] + b';
    SplitMiddle(a, '_', b);
    SplitMiddle(a', '_', b');
    assert Last(Split(a + ['_'] + b, '_')) == b && Last(Split(a' + ['_'] + b', '_')) == b';
    assert a == (a + "_" + b)[..|a|] && a' == (a' + "_" + b')[..|a'|];
  }

  lemma CleanFirstDir(site: Site, ks: Ks)
    requires GoodSite(site) && GoodKs(ks) && CleanVersion(ks.version)
    ensures Flat(ks) && FirstDir(site, ks) == ks.kb + "_" + ks.version + "_" + FormatInt(ks.stamp)
  {
    CleanHasNoColon(ks.version);
    CleanVersionStays(ks.version, site.hash);
    LeafDirectories(ks.kb, ks.version, ks.stamp, site.hash);
    NoSlash(ks.version, ks.stamp);
  }

  function CleanName(ks: Ks): string {
    ks.kb + "_" + ks.version + "_" + FormatInt(ks.stamp)
  }

  lemma CleanFolder(site: Site, ks: Ks)
    requires GoodSite(site) && GoodKs(ks) && CleanVersion(ks.version)
    ensures FolderOf(site, ks) == site.root + ["apps", ks.kb, "versions", CleanName(ks)]
  {
    CleanFirstDir(site, ks);
    FlatFolder(site, ks);
    assert Versions(site, ks.kb) + [CleanName(ks)] == site.root + ["apps", ks.kb, "versions", CleanName(ks)];
  }

  /** Snapshots of one app with clean versions have their folders apart: <kb>_<version>_<stamp>
      under versions. */
  lemma CleanFoldersDiffer(site: Site, a: Ks, b: Ks)
    requires GoodSite(site) && GoodKs(a) && GoodKs(b) && CleanVersion(a.version) && CleanVersion(b.version)
    requires a.kb == b.kb && a != b
    ensures FolderOf(site, a)
            == site.root + ["apps", a.kb, "versions", a.kb + "_" + a.version + "_" + FormatInt(a.stamp)]
    ensures FolderOf(site, a) != FolderOf(site, b)
  {
    CleanFolder(site, a);
    CleanFolder(site, b);
    NamesDiffer(a, b);
    assert FolderOf(site, a)[|site.root| + 3] == CleanName(a);
    assert FolderOf(site, b)[|site.root| + 3] == CleanName(b);
  }

  lemma NamesDiffer(a: Ks, b: Ks)
    requires GoodKs(a) && GoodKs(b) && a.kb == b.kb && a != b
    ensures CleanName(a) != CleanName(b)
  {
    if CleanName(a) == CleanName(b) { SameName(a, b); }
  }

  lemma SameName(a: Ks, b: Ks)
    requires GoodKs(a) && GoodKs(b) && a.kb == b.kb
    requires a.kb + "_" + a.version + "_" + FormatInt(a.stamp) == b.kb + "_" + b.version + "_" + FormatInt(b.stamp)
    ensures a == b
  {
    FormatIntShape(a.stamp);
    FormatIntShape(b.stamp);
    LastUnderscore(a.kb + "_" + a.version, FormatInt(a.stamp), b.kb + "_" + b.version, FormatInt(b.stamp));
    ParseOfFormat(a.stamp);
    ParseOfFormat(b.stamp);
    assert a.version == (a.kb + "_" + a.version)[|a.kb| + 1..];
    assert b.version == (b.kb + "_" + b.version)[|b.kb| + 1..];
  }

  // ---- numbers ------------------------------------------------------------------------------------

  lemma {:induction false} NoLeadingZero(n: nat)
    requires n > 0
    ensures Digits(n)[0] != '0'
  {
    if n < 10 {
    } else {
      NoLeadingZero(n / 10);
    }
  }

  /** strconv.FormatInt: a minus sign for negative numbers only, then the digits without leading
      zeros. */
  lemma FormatIntIs(n: int)
    ensures n == 0 ==> FormatInt(n) == "0"
    ensures n > 0 ==> AllDigits(FormatInt(n)) && Value(FormatInt(n)) == n && FormatInt(n)[0] != '0'
    ensures n < 0 ==> FormatInt(n) == "-" + FormatInt(-n)
  {
    if n > 0 {
      ValueOfDigits(n);
      NoLeadingZero(n);
    }
  }

  // ---- what the collector reads -----------------------------------------------------------------

  /** An optional sign and digits. */
  predicate Signed(s: string, sign: string, digits: string) {
    s == sign + digits && (sign == "" || sign == "+" || sign == "-") && digits != "" && AllDigits(digits)
  }

  ghost predicate Reads(s: string, n: int) {
    exists sign, digits :: Signed(s, sign, digits) && n == if sign == "-" then 0 - Value(digits) else Value(digits)
  }

  lemma ReadsParsed(s: string, n: int)
    requires ParseInt(s) == Some(n)
    ensures Reads(s, n)
  {
    if s[0] == '-' || s[0] == '+' {
      assert Signed(s, [s[0]], s[1..]);
    } else {
      assert Signed(s, "", s);
    }
  }

  lemma ParsesRead(s: string, n: int)
    requires Reads(s, n) && MIN64 <= n <= MAX64
    ensures ParseInt(s) == Some(n)
  {
    var sign, digits :| Signed(s, sign, digits) && n == if sign == "-" then 0 - Value(digits) else Value(digits);
    assert IsDigit(digits[0]);
    if sign == "" {
      assert s == digits;
    } else {
      assert s[0] == sign[0] && s[1..] == digits;
    }
  }

  /** strconv.ParseInt accepts exactly signed digits within 64 bits, at their value. */
  lemma ParseIntIff(s: string, n: int)
    ensures ParseInt(s) == Some(n) <==> MIN64 <= n <= MAX64 && Reads(s, n)
  {
    if ParseInt(s) == Some(n) { ReadsParsed(s, n); }
    if MIN64 <= n <= MAX64 && Reads(s, n) { ParsesRead(s, n); }
  }

  /** <kb_id>_<anything>_<number> */
  predicate NamePartsAre(name: string, kb: string, mid: string, num: string) {
    && name == kb + "_" + mid + "_" + num && '_' !in num
    && |kb| == 16 && forall i | 0 <= i < 16 :: '0' <= kb[i] <= '9' || 'a' <= kb[i] <= 'f'
  }

  lemma {:induction false} CutAtLast(s: string) returns (mid: string, num: string)
    requires '_' in s
    ensures s == mid + "_" + num && '_' !in num && Last(Split(s, '_')) == num
    decreases |s|
  {
    var head, tail := Before(s, '_'), After(s, '_');
    Cut(s, '_');
    if '_' !in tail {
      mid, num := head, tail;
    } else {
      mid, num := CutAtLast(tail);
      mid := head + "_" + mid;
    }
  }

  lemma SplitOnce(s: string)
    requires '_' !in s
    ensures Split(s, '_') == [s]
  {
  }

  lemma ThreePartsCut(name: string)
    requires |Split(name, '_')| >= 3
    ensures '_' in name && '_' in After(name, '_') && name == Before(name, '_') + "_" + After(name, '_')
    ensures Split(name, '_')[0] == Before(name, '_')
    ensures Last(Split(name, '_')) == Last(Split(After(name, '_'), '_'))
  {
    Cut(name, '_');
  }

  lemma DecodedParts(name: string, kb: string, n: int)
    requires DecodeOrphanLeaf(name) == Some(Pair(kb, n))
    ensures |Split(name, '_')| >= 3 && Split(name, '_')[0] == kb && IsKbId(kb)
    ensures ParseInt(Last(Split(name, '_'))) == Some(n)
  {
  }

  lemma DecodedHasParts(name: string, kb: string, n: int) returns (mid: string, num: string)
    requires DecodeOrphanLeaf(name) == Some(Pair(kb, n))
    ensures NamePartsAre(name, kb, mid, num) && ParseInt(num) == Some(n)
  {
    DecodedParts(name, kb, n);
    ThreePartsCut(name);
    mid, num := CutAtLast(After(name, '_'));
    assert name == kb + "_" + mid + "_" + num;
    IsKbIdMeans(kb);
  }

  lemma IsKbIdMeans(kb: string)
    ensures IsKbId(kb) <==> |kb| == 16 && forall i | 0 <= i < 16 :: '0' <= kb[i] <= '9' || 'a' <= kb[i] <= 'f'
  {
    if |kb| == 16 { assert forall i | 0 <= i < 16 :: kb[i] in kb; }
  }

  lemma PartsDecode(name: string, kb: string, mid: string, num: string, n: int)
    requires NamePartsAre(name, kb, mid, num) && ParseInt(num) == Some(n)
    ensures DecodeOrphanLeaf(name) == Some(Pair(kb, n))
  {
    IsKbIdMeans(kb);
    DecodeParts(kb, mid, num);
    SplitOnce(num);
  }

  /** Which directory names the collector decodes, and to what: exactly those of a 16-digit
      lower-case hexadecimal kb_id, anything, and a number after the last underscore. */
  lemma DecodesIff(name: string, kb: string, n: int)
    ensures DecodeOrphanLeaf(name) == Some(Pair(kb, n))
            <==> (exists mid, num :: NamePartsAre(name, kb, mid, num) && ParseInt(num) == Some(n))
  {
    if DecodeOrphanLeaf(name) == Some(Pair(kb, n)) {
      var mid, num := DecodedHasParts(name, kb, n);
      assert NamePartsAre(name, kb, mid, num) && ParseInt(num) == Some(n);
    }
    if mid, num :| NamePartsAre(name, kb, mid, num) && ParseInt(num) == Some(n) {
      PartsDecode(name, kb, mid, num, n);
    }
  }
}
