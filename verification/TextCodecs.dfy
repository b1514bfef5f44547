/** Text written for other readers: SQL identifiers and literals of db bootstrap, .reg strings
    and hex lists of registry dump. */
module TextCodecs {
  import opened Basics
  import opened Utf8

  // ---- quoteIdent and quoteLiteral --------------------------------------------------------

  const DOUBLE_QUOTE: Byte := 0x22
  const SINGLE_QUOTE: Byte := 0x27

  predicate IsQuote(q: Byte) {
    q == DOUBLE_QUOTE || q == SINGLE_QUOTE
  }

  /** `for _, r := range s`: every malformed byte comes out as U+FFFD. */
  function Runes(s: Bytes): (rs: seq<int>)
    ensures AllScalar(rs)
    decreases |s|
  {
    if s == [] then []
    else
      assert IsScalar(Decode(s).rune) by { if !Malformed(Decode(s)) { EncodeOfDecode(s); } }
      [Decode(s).rune] + Runes(s[Decode(s).size..])
  }

  /** A quote is written twice. */
  function Twice(r: int, q: Byte): seq<int> {
    if r == q then [q, q] else [r]
  }

  function Doubled(rs: seq<int>, q: Byte): (out: seq<int>)
    requires AllScalar(rs) && IsQuote(q)
    ensures AllScalar(out)
  {
    if rs == [] then [] else Doubled(rs[..|rs| - 1], q) + Twice(rs[|rs| - 1], q)
  }

  function Quoted(s: Bytes, q: Byte): Bytes
    requires IsQuote(q)
  {
    EncodeAll([q] + Doubled(Runes(s), q) + [q])
  }

  /** seen are the runes of the first i bytes. */
  ghost predicate Ranged(s: Bytes, i: int, seen: seq<int>) {
    0 <= i <= |s| && AllScalar(seen) && seen + Runes(s[i..]) == Runes(s)
  }

  lemma AllSeen(s: Bytes, i: nat, seen: seq<int>)
    requires Ranged(s, i, seen) && i == |s|
    ensures seen == Runes(s)
  {
    assert seen + Runes(s[i..]) == seen;
  }

  lemma RangeStep(s: Bytes, i: nat, seen: seq<int>)
    requires Ranged(s, i, seen) && i < |s|
    ensures var d := Decode(s[i..]); IsScalar(d.rune) && Ranged(s, i + d.size, seen + [d.rune])
  {
    var d := Decode(s[i..]);
    assert s[i..][d.size..] == s[i + d.size..];
    assert d.rune in Runes(s[i..]);
    assert seen + ([d.rune] + Runes(s[i + d.size..])) == (seen + [d.rune]) + Runes(s[i + d.size..]);
  }

  method NextRune(s: Bytes, i: nat, ghost seen: seq<int>) returns (r: int, size: nat)
    requires Ranged(s, i, seen) && i < |s|
    ensures size >= 1 && IsScalar(r) && Ranged(s, i + size, seen + [r])
  {
    var d := Decode(s[i..]);
    RangeStep(s, i, seen);
    r, size := d.rune, d.size;
  }

  lemma DoubledSnoc(rs: seq<int>, r: int, q: Byte)
    requires AllScalar(rs) && IsScalar(r) && IsQuote(q)
    ensures AllScalar(rs + [r]) && Doubled(rs + [r], q) == Doubled(rs, q) + Twice(r, q)
  {
    assert (rs + [r])[..|rs|] == rs;
  }

  /** body is what the loop makes of the first i bytes, whose runes are seen. */
  ghost predicate QuotedUpTo(s: Bytes, q: Byte, i: int, seen: seq<int>, body: seq<int>) {
    Ranged(s, i, seen) && IsQuote(q) && body == Doubled(seen, q)
  }

  lemma QuoteStep(s: Bytes, q: Byte, i: nat, seen: seq<int>, body: seq<int>, r: int, size: nat)
    requires QuotedUpTo(s, q, i, seen, body) && IsScalar(r) && Ranged(s, i + size, seen + [r])
    ensures QuotedUpTo(s, q, i + size, seen + [r], (if r == q then body + [q] else body) + [r])
  {
    DoubledSnoc(seen, r, q);
    assert (body + [q]) + [r] == body + [q, r];
  }

  /** The loop of quoteIdent (q is the double quote) and quoteLiteral (the single quote). */
  method DoubleQuotes(s: Bytes, q: Byte) returns (body: seq<int>)
    requires IsQuote(q)
    ensures body == Doubled(Runes(s), q)
  {
    body := [];
    ghost var seen: seq<int> := [];
    var i := 0;
    while i < |s|
      invariant QuotedUpTo(s, q, i, seen, body)
    {
      var r, size := NextRune(s, i, seen);
      QuoteStep(s, q, i, seen, body, r, size);
      if r == q { body := body + [q]; }
      body := body + [r];
      seen := seen + [r];
      i := i + size;
    }
    AllSeen(s, i, seen);
  }

  method Quote(s: Bytes, q: Byte) returns (out: Bytes)
    requires IsQuote(q)
    ensures out == Quoted(s, q)
  {
    var body := DoubleQuotes(s, q);
    out := EncodeAll([q] + body + [q]);
  }

  // ---- how the server reads it back (standard-conforming strings) ----------------------------

  /** The text of a quoted token after its opening quote, and what follows the token. */
  datatype Token = Token(text: Bytes, rest: Bytes)

  function LexBody(b: Bytes, q: Byte): Option<Token> {
    if b == [] then None
    else if b[0] != q then
      match LexBody(b[1..], q)
      case None => None
      case Some(t) => Some(Token([b[0]] + t.text, t.rest))
    else if |b| >= 2 && b[1] == q then
      match LexBody(b[2..], q)
      case None => None
      case Some(t) => Some(Token([q] + t.text, t.rest))
    else Some(Token([], b[1..]))
  }

  function Lex(b: Bytes, q: Byte): Option<Token> {
    if b == [] || b[0] != q then None else LexBody(b[1..], q)
  }

  function Prepend(a: Bytes, t: Option<Token>): Option<Token> {
    match t
    case None => None
    case Some(t) => Some(Token(a + t.text, t.rest))
  }

  lemma PrependTwice(a: Bytes, b: Bytes, t: Option<Token>)
    ensures Prepend([], t) == t
    ensures Prepend(a + b, t) == Prepend(a, Prepend(b, t))
  {
    if t.Some? {
      assert [] + t.value.text == t.value.text;
      assert (a + b) + t.value.text == a + (b + t.value.text);
    }
  }

  lemma {:induction false} LexPlain(e: Bytes, q: Byte, b: Bytes)
    requires q !in e
    ensures LexBody(e + b, q) == Prepend(e, LexBody(b, q))
  {
    if e == [] {
      assert e + b == b;
      PrependTwice([], [], LexBody(b, q));
    } else {
      assert (e + b)[1..] == e[1..] + b;
      LexPlain(e[1..], q, b);
      PrependTwice([e[0]], e[1..], LexBody(b, q));
      assert [e[0]] + e[1..] == e;
    }
  }

  /** A rune other than the quote has no quote byte in its encoding. */
  lemma NoQuoteByte(r: int, q: Byte)
    requires IsScalar(r) && IsQuote(q) && r != q
    ensures q !in EncodeRune(r)
  {
  }

  lemma LexRune(r: int, q: Byte, b: Bytes)
    requires IsScalar(r) && IsQuote(q)
    ensures LexBody(EncodeAll(Twice(r, q)) + b, q) == Prepend(EncodeRune(r), LexBody(b, q))
  {
    if r == q {
      assert EncodeAll([q, q]) == [q, q] by {
        assert [q, q] == [q] + [q as int];
        EncodeOne(q);
        EncodeAllConcat([q], [q]);
      }
      assert ([q, q] + b)[2..] == b;
    } else {
      EncodeOne(r);
      NoQuoteByte(r, q);
      LexPlain(EncodeRune(r), q, b);
    }
  }

  lemma EncodeOne(r: int)
    requires IsScalar(r)
    ensures EncodeAll([r]) == EncodeRune(r)
  {
    assert [r][1..] == [];
  }

  lemma EncodeSnoc(rs: seq<int>, r: int)
    requires AllScalar(rs) && IsScalar(r)
    ensures AllScalar(rs + [r]) && EncodeAll(rs + [r]) == EncodeAll(rs) + EncodeRune(r)
  {
    EncodeOne(r);
    EncodeAllConcat(rs, [r]);
  }

  /** The last rune of a doubled text, given how the runes before it read. */
  lemma LexLast(head: Bytes, rs: seq<int>, r: int, q: Byte, b: Bytes)
    requires AllScalar(rs) && IsScalar(r) && IsQuote(q)
    requires var e := EncodeAll(Twice(r, q)) + b;
             LexBody(head + e, q) == Prepend(EncodeAll(rs), LexBody(e, q))
    ensures AllScalar(rs + [r])
    ensures LexBody((head + EncodeAll(Twice(r, q))) + b, q) == Prepend(EncodeAll(rs + [r]), LexBody(b, q))
  {
    assert (head + EncodeAll(Twice(r, q))) + b == head + (EncodeAll(Twice(r, q)) + b);
    LexRune(r, q, b);
    PrependTwice(EncodeAll(rs), EncodeRune(r), LexBody(b, q));
    EncodeSnoc(rs, r);
  }

  /** One rune more, given how the doubled runes before it read. */
  lemma LexSnoc(rs: seq<int>, r: int, q: Byte, b: Bytes)
    requires AllScalar(rs) && IsScalar(r) && IsQuote(q)
    requires var e := EncodeAll(Twice(r, q)) + b;
             LexBody(EncodeAll(Doubled(rs, q)) + e, q) == Prepend(EncodeAll(rs), LexBody(e, q))
    ensures AllScalar(rs + [r])
    ensures LexBody(EncodeAll(Doubled(rs + [r], q)) + b, q) == Prepend(EncodeAll(rs + [r]), LexBody(b, q))
  {
    DoubledSnoc(rs, r, q);
    EncodeAllConcat(Doubled(rs, q), Twice(r, q));
    LexLast(EncodeAll(Doubled(rs, q)), rs, r, q, b);
  }

  lemma {:induction false} LexDoubled(rs: seq<int>, q: Byte, b: Bytes)
    requires AllScalar(rs) && IsQuote(q)
    ensures LexBody(EncodeAll(Doubled(rs, q)) + b, q) == Prepend(EncodeAll(rs), LexBody(b, q))
    decreases |rs|
  {
    if rs == [] {
      assert [] + b == b;
      PrependTwice([], [], LexBody(b, q));
    } else {
      var before, r := rs[..|rs| - 1], rs[|rs| - 1];
      assert rs == before + [r];
      LexDoubled(before, q, EncodeAll(Twice(r, q)) + b);
      LexSnoc(before, r, q, b);
    }
  }

  lemma {:induction false} RunesOfValid(s: Bytes)
    requires ValidString(s)
    ensures EncodeAll(Runes(s)) == s
    decreases |s|
  {
    if s == [] {
    } else {
      var r, rest := ValidStep(s);
      DecodeOfEncode(r, rest);
      RunesOfValid(rest);
      assert Runes(s) == [r] + Runes(rest);
      EncodeOne(r);
      EncodeAllConcat([r], Runes(rest));
    }
  }

  lemma LexEnd(q: Byte, suffix: Bytes)
    requires suffix != [] ==> suffix[0] != q
    ensures LexBody([q] + suffix, q) == Some(Token([], suffix))
  {
    assert ([q] + suffix)[1..] == suffix;
  }

  lemma Opened(q: Byte, body: Bytes, suffix: Bytes)
    ensures (([q] + body + [q]) + suffix)[0] == q
    ensures (([q] + body + [q]) + suffix)[1..] == body + ([q] + suffix)
  {
  }

  lemma LexQuoted(s: Bytes, q: Byte, suffix: Bytes)
    requires IsQuote(q) && (suffix != [] ==> suffix[0] != q)
    ensures Lex(Quoted(s, q) + suffix, q) == Some(Token(EncodeAll(Runes(s)), suffix))
  {
    var body := EncodeAll(Doubled(Runes(s), q));
    QuotedParts(s, q);
    Opened(q, body, suffix);
    LexDoubled(Runes(s), q, [q] + suffix);
    LexEnd(q, suffix);
    assert EncodeAll(Runes(s)) + [] == EncodeAll(Runes(s));
  }

  /** Followed by anything that does not start with its quote, the quoted text reads back as one
      token and that suffix; its text is the quoted one exactly when that was valid UTF-8, and has
      U+FFFD for each bad byte otherwise. */
  lemma QuoteReadsBack(s: Bytes, q: Byte, suffix: Bytes)
    requires IsQuote(q) && (suffix != [] ==> suffix[0] != q)
    ensures Lex(Quoted(s, q) + suffix, q) == Some(Token(EncodeAll(Runes(s)), suffix))
    ensures EncodeAll(Runes(s)) == s <==> ValidString(s)
  {
    LexQuoted(s, q, suffix);
    EncodedIsValid(Runes(s));
    if ValidString(s) { RunesOfValid(s); }
  }

  lemma QuotedParts(s: Bytes, q: Byte)
    requires IsQuote(q)
    ensures Quoted(s, q) == [q] + EncodeAll(Doubled(Runes(s), q)) + [q]
  {
    EncodeOne(q);
    EncodeAllConcat([q], Doubled(Runes(s), q));
    EncodeAllConcat([q] + Doubled(Runes(s), q), [q]);
  }

  // ---- escapeRegString --------------------------------------------------------------------------

  /** strings.ReplaceAll for a one-character pattern. */
  function ReplaceAll(s: string, c: char, sub: string): string {
    if s == "" then "" else ReplaceAll(s[..|s| - 1], c, sub) + if s[|s| - 1] == c then sub else [s[|s| - 1]]
  }

  function EscapeRegString(s: string): string {
    ReplaceAll(ReplaceAll(s, '\\', "\\\\"), '"', "\\\"")
  }

  function EscapeChar(c: char): string {
    if c == '\\' || c == '"' then ['\\', c] else [c]
  }

  function EscapeEach(s: string): string {
    if s == "" then "" else EscapeEach(s[..|s| - 1]) + EscapeChar(s[|s| - 1])
  }

  lemma {:induction false} ReplaceAllConcat(a: string, b: string, c: char, sub: string)
    ensures ReplaceAll(a + b, c, sub) == ReplaceAll(a, c, sub) + ReplaceAll(b, c, sub)
  {
    if b == "" {
      assert a + b == a;
    } else {
      var n := |b| - 1;
      assert (a + b)[..|a + b| - 1] == a + b[..n];
      ReplaceAllConcat(a, b[..n], c, sub);
    }
  }

  lemma ReplaceOne(x: char, c: char, sub: string)
    ensures ReplaceAll([x], c, sub) == if x == c then sub else [x]
  {
    assert [x][..0] == "";
  }

  /** Backslashes first, then quotes: together one map over the characters. */
  lemma {:induction false} EscapeIsPerChar(s: string)
    ensures EscapeRegString(s) == EscapeEach(s)
  {
    if s != "" {
      var n := |s| - 1;
      var first := if s[n] == '\\' then "\\\\" else [s[n]];
      EscapeIsPerChar(s[..n]);
      ReplaceAllConcat(ReplaceAll(s[..n], '\\', "\\\\"), first, '"', "\\\"");
      if s[n] == '\\' {
        assert first == ['\\'] + ['\\'];
        ReplaceAllConcat(['\\'], ['\\'], '"', "\\\"");
      }
      ReplaceOne('\\', '"', "\\\"");
      ReplaceOne(s[n], '"', "\\\"");
    }
  }

  /** The reader's inverse: a backslash stands for the character after it. */
  function Unescape(s: string): string {
    if s == "" then ""
    else if s[0] == '\\' && |s| >= 2 then [s[1]] + Unescape(s[2..])
    else [s[0]] + Unescape(s[1..])
  }

  lemma UnescapeChar(c: char, t: string)
    ensures Unescape(EscapeChar(c) + t) == [c] + Unescape(t)
  {
    var e := EscapeChar(c);
    assert (e + t)[|e|..] == t;
  }

  lemma {:induction false} UnescapeEach(s: string, t: string)
    ensures Unescape(EscapeEach(s) + t) == s + Unescape(t)
    decreases |s|
  {
    if s == "" {
      assert "" + t == t;
    } else {
      var n := |s| - 1;
      var head, e := EscapeEach(s[..n]), EscapeChar(s[n]);
      assert (head + e) + t == head + (e + t);
      UnescapeEach(s[..n], e + t);
      UnescapeChar(s[n], t);
      assert s[..n] + ([s[n]] + Unescape(t)) == s + Unescape(t);
    }
  }

  lemma RegStringRoundTrip(s: string)
    ensures Unescape(EscapeRegString(s)) == s
  {
    EscapeIsPerChar(s);
    UnescapeEach(s, "");
    assert EscapeEach(s) + "" == EscapeEach(s);
    assert s + "" == s;
  }

  // ---- bytesToHex ------------------------------------------------------------------------------------

  const HEX := "0123456789abcdef"

  function HexPair(b: Byte): string {
    [HEX[b / 16], HEX[b % 16]]
  }

  function HexList(b: Bytes): string {
    if b == [] then ""
    else HexList(b[..|b| - 1]) + (if |b| > 1 then "," else "") + HexPair(b[|b| - 1])
  }

  method BytesToHex(b: Bytes) returns (out: string)
    ensures out == HexList(b)
  {
    out := "";
    for i := 0 to |b|
      invariant out == HexList(b[..i])
    {
      assert b[..i + 1][..i] == b[..i];
      if i > 0 { out := out + ","; }
      out := out + [HEX[b[i] / 16], HEX[b[i] % 16]];
    }
    assert b[..|b|] == b;
  }

  function Nibble(c: char): Option<int> {
    if '0' <= c <= '9' then Some(c as int - '0' as int)
    else if 'a' <= c <= 'f' then Some(c as int - 'a' as int + 10)
    else None
  }

  function ReadPair(h: char, l: char): Option<Byte> {
    match Nibble(h)
    case None => None
    case Some(x) => match Nibble(l)
      case None => None
      case Some(y) => Some(16 * x + y)
  }

  /** Reads a comma-separated list of two-digit bytes, from its end. */
  function ReadHex(s: string): Option<Bytes> {
    var n := |s|;
    if n == 0 then Some([])
    else if n == 1 || ReadPair(s[n - 2], s[n - 1]).None? then None
    else if n == 2 then Some([ReadPair(s[0], s[1]).value])
    else if n == 3 || s[n - 3] != ',' then None
    else match ReadHex(s[..n - 3])
      case None => None
      case Some(b) => Some(b + [ReadPair(s[n - 2], s[n - 1]).value])
  }

  lemma PairRoundTrip(b: Byte)
    ensures ReadPair(HexPair(b)[0], HexPair(b)[1]) == Some(b)
  {
    assert b == 16 * (b / 16) + b % 16;
    NibbleOfHex(b / 16);
    NibbleOfHex(b % 16);
  }

  lemma NibbleOfHex(n: int)
    requires 0 <= n < 16
    ensures Nibble(HEX[n]) == Some(n)
  {
  }

  lemma ReadHexStep(head: string, b: Byte)
    requires head != ""
    ensures ReadHex(head + "," + HexPair(b))
            == match ReadHex(head) { case None => None case Some(x) => Some(x + [b]) }
  {
    var s := head + "," + HexPair(b);
    PairRoundTrip(b);
    assert s[|s| - 2] == HexPair(b)[0] && s[|s| - 1] == HexPair(b)[1] && s[|s| - 3] == ',';
    assert s[..|s| - 3] == head;
  }

  lemma {:induction false} HexRoundTrip(b: Bytes)
    ensures ReadHex(HexList(b)) == Some(b)
    ensures b != [] ==> |HexList(b)| == 3 * |b| - 1
  {
    if b != [] {
      var n := |b| - 1;
      HexRoundTrip(b[..n]);
      PairRoundTrip(b[n]);
      assert b == b[..n] + [b[n]];
      if n == 0 {
        assert HexList(b[..0]) == "";
        assert HexList(b) == HexPair(b[0]);
      } else {
        ReadHexStep(HexList(b[..n]), b[n]);
      }
    }
  }
}
