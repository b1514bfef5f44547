/** Snapshot folder names: `<kb_id>:<version>:<captured_at>` encoded as a directory name, and
    what the orphan collector reads back from one. Strings are Go strings, one char a byte. */
module LeafCodec {
  import opened Basics

  // ---- strings.Split ----------------------------------------------------------------

  function Before(s: string, c: char): (a: string)
    ensures c !in a && |a| <= |s|
    ensures c !in s ==> a == s
  {
    if s == "" || s[0] == c then "" else [s[0]] + Before(s[1..], c)
  }

  function After(s: string, c: char): (b: string)
    requires c in s
    ensures |b| < |s|
  {
    if s[0] == c then s[1..] else After(s[1..], c)
  }

  lemma {:induction false} Cut(s: string, c: char)
    requires c in s
    ensures s == Before(s, c) + [c] + After(s, c)
  {
    if s[0] == c {
    } else {
      Cut(s[1..], c);
    }
  }

  lemma {:induction false} CutAt(a: string, c: char, b: string)
    requires c !in a
    ensures c in a + [c] + b
    ensures Before(a + [c] + b, c) == a && After(a + [c] + b, c) == b
  {
    var s := a + [c] + b;
    assert s[|a|] == c;
    if a == "" {
    } else {
      CutAt(a[1..], c, b);
      assert s[1..] == a[1..] + [c] + b;
    }
  }

  function Split(s: string, c: char): (parts: seq<string>)
    ensures |parts| >= 1
    decreases |s|
  {
    if c !in s then [s] else [Before(s, c)] + Split(After(s, c), c)
  }

  /** strings.SplitN: at most n parts, the last one unsplit. */
  function SplitN(s: string, c: char, n: nat): (parts: seq<string>)
    requires n >= 1
    ensures 1 <= |parts| <= n
    decreases n
  {
    if n == 1 || c !in s then [s] else [Before(s, c)] + SplitN(After(s, c), c, n - 1)
  }

  function Last(parts: seq<string>): string
    requires |parts| >= 1
  {
    parts[|parts| - 1]
  }

  lemma SplitFirst(a: string, c: char, b: string)
    requires c !in a
    ensures Split(a + [c] + b, c) == [a] + Split(b, c)
  {
    CutAt(a, c, b);
  }

  lemma SplitNFirst(a: string, c: char, b: string, n: nat)
    requires c !in a && n >= 2
    ensures SplitN(a + [c] + b, c, n) == [a] + SplitN(b, c, n - 1)
  {
    CutAt(a, c, b);
  }

  lemma Regroup(a: string, c: char, b: string, d: char, e: string)
    ensures (a + [c] + b) + [d] + e == a + [c] + (b + [d] + e)
  {
  }

  lemma {:induction false} SplitMiddle(a: string, c: char, b: string)
    ensures Split(a + [c] + b, c) == Split(a, c) + Split(b, c)
    decreases |a|
  {
    if c !in a {
      SplitFirst(a, c, b);
    } else {
      var head, tail := Before(a, c), After(a, c);
      Cut(a, c);
      Regroup(head, c, tail, c, b);
      SplitFirst(head, c, tail + [c] + b);
      SplitMiddle(tail, c, b);
    }
  }

  /** Text without the separator stays on the last part. */
  lemma {:induction false} SplitSuffix(a: string, c: char, b: string)
    requires c !in b
    ensures Last(Split(a + b, c)) == Last(Split(a, c)) + b
    decreases |a|
  {
    if c !in a {
    } else {
      var head, tail := Before(a, c), After(a, c);
      Cut(a, c);
      assert a + b == head + [c] + (tail + b);
      SplitFirst(head, c, tail + b);
      SplitSuffix(tail, c, b);
    }
  }

  // ---- strconv ----------------------------------------------------------------------

  const MIN64 := -0x8000_0000_0000_0000
  const MAX64 := 0x7FFF_FFFF_FFFF_FFFF

  function Digit(d: nat): char
    requires d < 10
  {
    ('0' as int + d) as char
  }

  predicate IsDigit(c: char) {
    '0' <= c <= '9'
  }

  function Digits(n: nat): (s: string)
    ensures s != "" && AllDigits(s)
  {
    if n < 10 then [Digit(n)] else Digits(n / 10) + [Digit(n % 10)]
  }

  function FormatInt(n: int): string {
    if n < 0 then "-" + Digits(-n) else Digits(n)
  }

  predicate AllDigits(s: string) {
    forall i | 0 <= i < |s| :: IsDigit(s[i])
  }

  function Value(s: string): nat
    requires AllDigits(s)
  {
    if s == "" then 0
    else
      var c := s[|s| - 1];
      assert IsDigit(c);
      Value(s[..|s| - 1]) * 10 + (c as int - '0' as int)
  }

  /** strconv.ParseInt(s, 10, 64): one optional sign, digits only, in range. */
  function ParseInt(s: string): (r: Option<int>)
    ensures r.Some? ==> MIN64 <= r.value <= MAX64
  {
    var signed := s != "" && (s[0] == '-' || s[0] == '+');
    var digits := if signed then s[1..] else s;
    if digits == "" || !AllDigits(digits) then None
    else
      var n: int := Value(digits);
      var v := if s[0] == '-' then -n else n;
      if MIN64 <= v <= MAX64 then Some(v) else None
  }

  lemma {:induction false} ValueOfDigits(n: nat)
    ensures Value(Digits(n)) == n
  {
    if n >= 10 {
      ValueOfDigits(n / 10);
      assert Digits(n)[..|Digits(n)| - 1] == Digits(n / 10);
    } else {
      assert Digits(n)[..0] == "";
    }
  }

  lemma FormatIntShape(n: int)
    ensures FormatInt(n) != "" && '_' !in FormatInt(n) && ':' !in FormatInt(n) && '/' !in FormatInt(n)
  {
  }

  lemma ParseDigits(digits: string)
    requires digits != "" && AllDigits(digits) && Value(digits) <= MAX64
    ensures ParseInt(digits) == Some(Value(digits))
  {
    assert IsDigit(digits[0]);
  }

  lemma ParseMinus(digits: string)
    requires digits != "" && AllDigits(digits) && MIN64 + Value(digits) <= 0
    ensures ParseInt("-" + digits) == Some(0 - Value(digits))
  {
    assert ("-" + digits)[1..] == digits;
  }

  lemma ParseOfFormat(n: int)
    requires MIN64 <= n <= MAX64
    ensures ParseInt(FormatInt(n)) == Some(n)
  {
    if n < 0 {
      ValueOfDigits(-n);
      ParseMinus(Digits(-n));
    } else {
      ValueOfDigits(n);
      ParseDigits(Digits(n));
    }
  }

  // ---- identity and the folder name ---------------------------------------------------

  predicate HexChar(c: char) {
    '0' <= c <= '9' || 'a' <= c <= 'f'
  }

  /** ^[0-9a-f]{16}$ */
  predicate IsKbId(s: string) {
    |s| == 16 && forall c | c in s :: HexChar(c)
  }

  function KsText(kb: string, version: string, stamp: int): string {
    kb + ":" + version + ":" + FormatInt(stamp)
  }

  predicate Reserved(c: char) {
    c in "<>:|?*\"\\/" || c as int < 0x20
  }

  function ReplaceReserved(s: string): (r: string)
    ensures |r| == |s| && forall c | c in r :: !Reserved(c)
  {
    if s == "" then "" else [if Reserved(s[0]) then '_' else s[0]] + ReplaceReserved(s[1..])
  }

  function CollapseRuns(s: string): (r: string)
    ensures |r| <= |s| && forall c | c in r :: c in s
    ensures forall i | 0 <= i < |r| - 1 :: r[i] == '_' ==> r[i + 1] != '_'
    ensures s != "" ==> r != "" && r[0] == s[0]
  {
    if |s| < 2 then s
    else if s[0] == '_' && s[1] == '_' then CollapseRuns(s[1..])
    else [s[0]] + CollapseRuns(s[1..])
  }

  function TrimRight(s: string): (r: string)
    ensures r <= s
    ensures r != "" ==> r[|r| - 1] != '.' && r[|r| - 1] != ' '
  {
    if s != "" && (s[|s| - 1] == '.' || s[|s| - 1] == ' ') then TrimRight(s[..|s| - 1]) else s
  }

  function Cleaned(v: string): string {
    TrimRight(CollapseRuns(ReplaceReserved(v)))
  }

  function Clip(s: string, h: string): string {
    if |s| > 64 then s[..64] + "_" + h else s
  }

  /** hash stands for the first four bytes of SHA-256 in hex. */
  function SanitizeVersion(v: string, hash: string -> string): string {
    if v == "" || Cleaned(v) == "" then "unknown" else Clip(Cleaned(v), hash(v))
  }

  predicate IsHash8(h: string) {
    |h| == 8 && forall i | 0 <= i < 8 :: HexChar(h[i])
  }

  predicate NothingReserved(s: string) {
    forall i | 0 <= i < |s| :: !Reserved(s[i])
  }

  predicate SafeName(s: string) {
    1 <= |s| <= 73 && NothingReserved(s) && s[|s| - 1] != '.' && s[|s| - 1] != ' '
  }

  lemma CleanedIsSafe(v: string)
    ensures NothingReserved(Cleaned(v))
    ensures Cleaned(v) != "" ==> Cleaned(v)[|Cleaned(v)| - 1] != '.' && Cleaned(v)[|Cleaned(v)| - 1] != ' '
  {
    var t := CollapseRuns(ReplaceReserved(v));
    forall i | 0 <= i < |Cleaned(v)| ensures !Reserved(Cleaned(v)[i]) {
      assert t[i] in t;
    }
  }

  lemma ClipIsSafe(s: string, h: string)
    requires s != "" && NothingReserved(s) && s[|s| - 1] != '.' && s[|s| - 1] != ' ' && IsHash8(h)
    ensures SafeName(Clip(s, h))
  {
    assert HexChar(h[7]);
  }

  /** The version segment is a usable directory name on every platform. */
  lemma SanitizedIsSafe(v: string, hash: string -> string)
    requires IsHash8(hash(v))
    ensures SafeName(SanitizeVersion(v, hash))
  {
    CleanedIsSafe(v);
    if Cleaned(v) != "" { ClipIsSafe(Cleaned(v), hash(v)); }
  }

  function EncodeKsID(ks: string, hash: string -> string): Option<string> {
    var parts := SplitN(ks, ':', 3);
    if |parts| != 3 then None else Some(parts[0] + "_" + SanitizeVersion(parts[1], hash) + "_" + parts[2])
  }

  datatype Pair = Pair(kb: string, capturedAt: int)

  function FromParts(parts: seq<string>): Option<Pair> {
    if |parts| < 3 || !IsKbId(parts[0]) then None
    else match ParseInt(Last(parts))
      case None => None
      case Some(n) => Some(Pair(parts[0], n))
  }

  function DecodeOrphanLeaf(name: string): Option<Pair> {
    FromParts(Split(name, '_'))
  }

  lemma KbIdHasNoSeparators(kb: string)
    requires IsKbId(kb)
    ensures '_' !in kb && ':' !in kb && '/' !in kb
  {
  }

  /** What is left of version and stamp after the version's first colon. */
  function Tail(version: string, cap: string): string {
    if ':' in version then After(version, ':') + [':'] + cap else cap
  }

  /** What SplitN sees after the kb_id: the version up to its first colon, and the rest. */
  lemma SplitVersion(version: string, cap: string)
    requires ':' !in cap
    ensures SplitN(version + [':'] + cap, ':', 2) == [Before(version, ':'), Tail(version, cap)]
  {
    if ':' in version {
      var a, b := Before(version, ':'), After(version, ':');
      Cut(version, ':');
      Regroup(a, ':', b, ':', cap);
      SplitNFirst(a, ':', b + [':'] + cap, 2);
    } else {
      SplitNFirst(version, ':', cap, 2);
    }
  }

  lemma EncodeParts(kb: string, version: string, stamp: int, hash: string -> string)
    requires IsKbId(kb)
    ensures EncodeKsID(KsText(kb, version, stamp), hash)
            == Some(kb + "_" + SanitizeVersion(Before(version, ':'), hash) + "_" + Tail(version, FormatInt(stamp)))
  {
    var rest := version + [':'] + FormatInt(stamp);
    KbIdHasNoSeparators(kb);
    FormatIntShape(stamp);
    assert KsText(kb, version, stamp) == kb + [':'] + rest;
    SplitNFirst(kb, ':', rest, 3);
    SplitVersion(version, FormatInt(stamp));
  }

  lemma LeafParts(kb: string, mid: string, last: string)
    requires '_' !in kb
    ensures Split(kb + ['_'] + mid + ['_'] + last, '_') == [kb] + Split(mid, '_') + Split(last, '_')
  {
    Regroup(kb, '_', mid, '_', last);
    SplitFirst(kb, '_', mid + ['_'] + last);
    SplitMiddle(mid, '_', last);
  }

  lemma DecodeParts(kb: string, mid: string, last: string)
    requires IsKbId(kb)
    ensures DecodeOrphanLeaf(kb + "_" + mid + "_" + last)
            == match ParseInt(Last(Split(last, '_'))) { case None => None case Some(n) => Some(Pair(kb, n)) }
  {
    KbIdHasNoSeparators(kb);
    LeafParts(kb, mid, last);
    LastPart([kb] + Split(mid, '_'), Split(last, '_'));
  }

  lemma LastPart(a: seq<string>, b: seq<string>)
    requires |a| >= 2 && |b| >= 1 && IsKbId(a[0])
    ensures FromParts(a + b) == match ParseInt(Last(b)) { case None => None case Some(n) => Some(Pair(a[0], n)) }
  {
  }

  lemma LastOfTail(version: string, stamp: int)
    requires MIN64 <= stamp <= MAX64
    ensures ParseInt(Last(Split(Tail(version, FormatInt(stamp)), '_'))) == if ':' in version then None else Some(stamp)
  {
    var cap := FormatInt(stamp);
    FormatIntShape(stamp);
    if ':' in version {
      var rest := After(version, ':');
      assert Tail(version, cap) == rest + (":" + cap);
      SplitSuffix(rest, '_', ":" + cap);
      ColonIsNoInt(Last(Split(rest, '_')), cap);
    } else {
      assert Tail(version, cap) == cap;
      ParseOfFormat(stamp);
    }
  }

  // ---- directories ------------------------------------------------------------------------

  /** Splitting text whose first part ends in b's first part. */
  lemma SplitPrefix(a: string, c: char, b: string)
    requires c !in a
    ensures Split(a + b, c) == [a + Split(b, c)[0]] + Split(b, c)[1..]
  {
    if c in b {
      Cut(b, c);
      assert a + b == (a + Before(b, c)) + [c] + After(b, c);
      SplitFirst(a + Before(b, c), c, After(b, c));
    }
  }

  function Leaf(kb: string, version: string, stamp: int, hash: string -> string): string
    requires IsKbId(kb)
  {
    EncodeParts(kb, version, stamp, hash);
    EncodeKsID(KsText(kb, version, stamp), hash).value
  }

  /** What precedes the first slash of Tail. The version segment never holds one, so this is all
      of Tail the collector gets to see. */
  function FirstTail(version: string, stamp: int): string {
    Before(Tail(version, FormatInt(stamp)), '/')
  }

  lemma SafeHasNoSlash(s: string)
    requires SafeName(s)
    ensures '/' !in s
  {
    assert Reserved('/');
  }

  /** A '/' after the version's first colon starts a directory of its own. */
  lemma LeafDirectories(kb: string, version: string, stamp: int, hash: string -> string)
    requires IsKbId(kb) && IsHash8(hash(Before(version, ':')))
    ensures var safe := SanitizeVersion(Before(version, ':'), hash);
            Split(Leaf(kb, version, stamp, hash), '/')
            == [kb + "_" + safe + "_" + FirstTail(version, stamp)]
               + Split(Tail(version, FormatInt(stamp)), '/')[1..]
  {
    var safe := SanitizeVersion(Before(version, ':'), hash);
    EncodeParts(kb, version, stamp, hash);
    SanitizedIsSafe(Before(version, ':'), hash);
    SafeHasNoSlash(safe);
    KbIdHasNoSeparators(kb);
    SplitPrefix(kb + "_" + safe + "_", '/', Tail(version, FormatInt(stamp)));
  }

  /** What the collector reads from the directory a snapshot's path enters under versions. */
  function FirstPair(ks: string, version: string, stamp: int): Option<Pair> {
    match ParseInt(Last(Split(FirstTail(version, stamp), '_')))
    case None => None
    case Some(n) => Some(Pair(ks, n))
  }

  lemma NoSlash(version: string, stamp: int)
    requires ':' in version ==> '/' !in After(version, ':')
    ensures FirstTail(version, stamp) == Tail(version, FormatInt(stamp))
    ensures '/' !in Tail(version, FormatInt(stamp))
  {
    FormatIntShape(stamp);
  }

  /** The collector reads (kb_id, number) from the first directory of a snapshot's path, the
      number being what follows the last underscore there. For every version without a colon,
      underscores included, that is the snapshot's own stamp. With a colon and no slash after it
      the name does not decode; with a slash it is whatever the version's text says. */
  lemma DecodeOfEncode(kb: string, version: string, stamp: int, hash: string -> string)
    requires IsKbId(kb) && MIN64 <= stamp <= MAX64 && IsHash8(hash(Before(version, ':')))
    ensures var dirs := Split(Leaf(kb, version, stamp, hash), '/');
            && DecodeOrphanLeaf(dirs[0]) == FirstPair(kb, version, stamp)
            && (':' !in version ==> |dirs| == 1 && DecodeOrphanLeaf(dirs[0]) == Some(Pair(kb, stamp)))
            && (':' in version && '/' !in After(version, ':') ==> |dirs| == 1 && DecodeOrphanLeaf(dirs[0]) == None)
  {
    var safe := SanitizeVersion(Before(version, ':'), hash);
    LeafDirectories(kb, version, stamp, hash);
    DecodeParts(kb, safe, FirstTail(version, stamp));
    if ':' in version ==> '/' !in After(version, ':') {
      NoSlash(version, stamp);
      LastOfTail(version, stamp);
    }
  }

  lemma ColonIsNoInt(a: string, b: string)
    ensures ParseInt(a + (":" + b)) == None
  {
    var s := a + (":" + b);
    var signed := s[0] == '-' || s[0] == '+';
    var digits := if signed then s[1..] else s;
    assert s[|a|] == ':';
    if signed {
      assert |a| > 0 && digits[|a| - 1] == ':';
      assert ':' in digits;
    } else {
      assert ':' in digits;
    }
  }

  lemma LastColon(a: string, b: string, a': string, b': string)
    requires ':' !in b && ':' !in b' && a + ":" + b == a' + ":" + b'
    ensures a == a' && b == b'
  {
    assert a + ":" + b == a + [':'] + b && a' + ":" + b' == a' + [':'] + b';
    SplitMiddle(a, ':', b);
    SplitMiddle(a', ':', b');
    assert Last(Split(a + [':'] + b, ':')) == b && Last(Split(a' + [':'] + b', ':')) == b';
    assert |a| == |a'|;
    assert a == (a + ":" + b)[..|a|] && a' == (a' + ":" + b')[..|a'|];
  }

  /** ks_id texts tell snapshots apart. */
  lemma KsTextInjective(kb: string, v: string, s: int, kb': string, v': string, s': int)
    requires IsKbId(kb) && IsKbId(kb') && MIN64 <= s <= MAX64 && MIN64 <= s' <= MAX64
    requires KsText(kb, v, s) == KsText(kb', v', s')
    ensures kb == kb' && v == v' && s == s'
  {
    FormatIntShape(s);
    FormatIntShape(s');
    LastColon(kb + ":" + v, FormatInt(s), kb' + ":" + v', FormatInt(s'));
    ParseOfFormat(s);
    ParseOfFormat(s');
    assert kb == (kb + ":" + v)[..16] && kb' == (kb' + ":" + v')[..16];
    assert v == (kb + ":" + v)[17..] && v' == (kb' + ":" + v')[17..];
  }
}
