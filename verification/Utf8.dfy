/** UTF-8 as Go's unicode/utf8 reads it (RFC 3629, sections 3 and 4) and the
    sanitiser that stands between SQLite bytes and Postgres TEXT. */
module Utf8 {

  type Byte = x: int | 0 <= x < 256
  type Bytes = seq<Byte>

  const RUNE_ERROR := 0xFFFD

  /** A Unicode scalar value: a code point that is not a surrogate. */
  predicate IsScalar(r: int) {
    0 <= r < 0xD800 || 0xE000 <= r <= 0x10FFFF
  }

  // ---- RFC 3629 section 3: the encoder -------------------------------------------

  function EncodeRune(r: int): (e: Bytes)
    requires IsScalar(r)
    ensures 1 <= |e| <= 4
  {
    if r < 0x80 then [r]
    else if r < 0x800 then [0xC0 + r / 0x40, 0x80 + r % 0x40]
    else if r < 0x10000 then [0xE0 + r / 0x1000, 0x80 + r / 0x40 % 0x40, 0x80 + r % 0x40]
    else [0xF0 + r / 0x40000, 0x80 + r / 0x1000 % 0x40, 0x80 + r / 0x40 % 0x40, 0x80 + r % 0x40]
  }

  ghost predicate AllScalar(rs: seq<int>) {
    forall r | r in rs :: IsScalar(r)
  }

  function EncodeAll(rs: seq<int>): Bytes
    requires forall r | r in rs :: IsScalar(r)
  {
    if rs == [] then [] else EncodeRune(rs[0]) + EncodeAll(rs[1..])
  }

  // ---- utf8.DecodeRuneInString -----------------------------------------------------

  datatype Decoded = Decoded(rune: int, size: nat)

  /** The payload of byte i once its length marker is taken off. */
  function Bits(s: Bytes, i: nat, marker: int): int
    requires i < |s|
  {
    var b: int := s[i];
    b - marker
  }

  predicate Cont(b: Byte) { 0x80 <= b <= 0xBF }

  /** The range the second byte must lie in, given the first (RFC 3629 section 4). */
  predicate SecondOk(b0: Byte, b1: Byte) {
    if b0 == 0xE0 then 0xA0 <= b1 <= 0xBF
    else if b0 == 0xED then 0x80 <= b1 <= 0x9F
    else if b0 == 0xF0 then 0x90 <= b1 <= 0xBF
    else if b0 == 0xF4 then 0x80 <= b1 <= 0x8F
    else Cont(b1)
  }

  /** First code point of s and its width; a malformed start reads as (U+FFFD, 1). */
  function Decode(s: Bytes): (d: Decoded)
    requires s != []
    ensures 1 <= d.size <= |s| && d.size <= 4
  {
    var b0 := s[0];
    if b0 < 0x80 then Decoded(b0, 1)
    else if 0xC2 <= b0 <= 0xDF && |s| >= 2 && Cont(s[1]) then
      Decoded(Bits(s, 0, 0xC0) * 0x40 + Bits(s, 1, 0x80), 2)
    else if 0xE0 <= b0 <= 0xEF && |s| >= 3 && SecondOk(b0, s[1]) && Cont(s[2]) then
      Decoded(Bits(s, 0, 0xE0) * 0x1000 + Bits(s, 1, 0x80) * 0x40 + Bits(s, 2, 0x80), 3)
    else if 0xF0 <= b0 <= 0xF4 && |s| >= 4 && SecondOk(b0, s[1]) && Cont(s[2]) && Cont(s[3]) then
      Decoded(Bits(s, 0, 0xF0) * 0x40000 + Bits(s, 1, 0x80) * 0x1000 + Bits(s, 2, 0x80) * 0x40 + Bits(s, 3, 0x80), 4)
    else Decoded(RUNE_ERROR, 1)
  }

  predicate Malformed(d: Decoded) { d.rune == RUNE_ERROR && d.size == 1 }

  /** utf8.ValidString */
  predicate ValidString(s: Bytes)
    decreases |s|
  {
    s == [] || (!Malformed(Decode(s)) && ValidString(s[Decode(s).size..]))
  }

  /** Decoding undoes encoding, whatever follows. */
  lemma DecodeOfEncode(r: int, t: Bytes)
    requires IsScalar(r)
    ensures Decode(EncodeRune(r) + t) == Decoded(r, |EncodeRune(r)|)
    ensures !Malformed(Decode(EncodeRune(r) + t))
    ensures (EncodeRune(r) + t)[|EncodeRune(r)|..] == t
  {
    var e := EncodeRune(r);
    assert forall i | 0 <= i < |e| :: (e + t)[i] == e[i];
    if 0x10000 <= r {
      Regroup(r, 0x40);
      Regroup(r / 0x40, 0x40);
      Regroup(r / 0x1000, 0x40);
      assert r / 0x40 / 0x40 == r / 0x1000 && r / 0x1000 / 0x40 == r / 0x40000;
    } else if 0x800 <= r {
      Regroup(r, 0x40);
      Regroup(r / 0x40, 0x40);
      assert r / 0x40 / 0x40 == r / 0x1000;
    }
  }

  lemma Regroup(n: int, k: int)
    requires n >= 0 && k > 0
    ensures n == (n / k) * k + n % k
  {
  }

  /** Base-64 digits are read back by division. */
  lemma Digits(q: int, c: int)
    requires 0 <= c < 0x40
    ensures (q * 0x40 + c) / 0x40 == q && (q * 0x40 + c) % 0x40 == c
  {
  }

  /** A well-formed start is exactly the encoding of the scalar it reads as. */
  lemma EncodeOfDecode(s: Bytes)
    requires s != [] && !Malformed(Decode(s))
    ensures IsScalar(Decode(s).rune)
    ensures s[..Decode(s).size] == EncodeRune(Decode(s).rune)
  {
    var d := Decode(s);
    if d.size == 2 {
      Digits(Bits(s, 0, 0xC0), Bits(s, 1, 0x80));
    } else if d.size == 3 {
      EncodeOfDecode3(s);
    } else if d.size == 4 {
      EncodeOfDecode4(s);
    }
  }

  lemma EncodeOfDecode3(s: Bytes)
    requires s != [] && Decode(s).size == 3
    ensures IsScalar(Decode(s).rune)
    ensures s[..3] == EncodeRune(Decode(s).rune)
  {
    var a, b, c := Bits(s, 0, 0xE0), Bits(s, 1, 0x80), Bits(s, 2, 0x80);
    var r := Decode(s).rune;
    assert r == (a * 0x40 + b) * 0x40 + c;
    Digits(a * 0x40 + b, c);
    Digits(a, b);
    assert r / 0x1000 == a;
    assert 0x800 <= r < 0x10000;
  }

  lemma EncodeOfDecode4(s: Bytes)
    requires s != [] && Decode(s).size == 4
    ensures IsScalar(Decode(s).rune)
    ensures s[..4] == EncodeRune(Decode(s).rune)
  {
    var a, b, c, e := Bits(s, 0, 0xF0), Bits(s, 1, 0x80), Bits(s, 2, 0x80), Bits(s, 3, 0x80);
    var r := Decode(s).rune;
    assert r == ((a * 0x40 + b) * 0x40 + c) * 0x40 + e;
    Digits((a * 0x40 + b) * 0x40 + c, e);
    Digits(a * 0x40 + b, c);
    Digits(a, b);
    assert r / 0x1000 == a * 0x40 + b;
    assert r / 0x40000 == a;
    assert 0x10000 <= r <= 0x10FFFF;
  }

  /** A non-empty valid string is one encoded scalar followed by a valid string. */
  lemma ValidStep(s: Bytes) returns (r: int, rest: Bytes)
    requires s != [] && ValidString(s)
    ensures IsScalar(r) && s == EncodeRune(r) + rest && ValidString(rest)
  {
    var d := Decode(s);
    EncodeOfDecode(s);
    r, rest := d.rune, s[d.size..];
    assert s == s[..d.size] + rest;
  }

  /** The scalar values a valid string encodes. */
  lemma {:induction false} ValidIsEncoded(s: Bytes) returns (rs: seq<int>)
    requires ValidString(s)
    ensures AllScalar(rs) && EncodeAll(rs) == s
    decreases |s|
  {
    if s == [] {
      rs := [];
    } else {
      var r, rest := ValidStep(s);
      var tail := ValidIsEncoded(rest);
      rs := [r] + tail;
      assert rs[1..] == tail;
    }
  }

  /** ValidString means what RFC 3629 says: s is the encoding of some scalar values. */
  lemma ValidIffEncoded(s: Bytes)
    ensures ValidString(s) <==> exists rs: seq<int> :: AllScalar(rs) && EncodeAll(rs) == s
  {
    if ValidString(s) {
      var rs := ValidIsEncoded(s);
    }
    forall rs: seq<int> | AllScalar(rs) && EncodeAll(rs) == s ensures ValidString(s) {
      EncodedIsValid(rs);
    }
  }

  lemma {:induction false} EncodedIsValid(rs: seq<int>)
    requires AllScalar(rs)
    ensures ValidString(EncodeAll(rs))
  {
    if rs == [] {
    } else {
      DecodeOfEncode(rs[0], EncodeAll(rs[1..]));
      EncodedIsValid(rs[1..]);
    }
  }

  lemma {:induction false} EncodeAllConcat(a: seq<int>, b: seq<int>)
    requires AllScalar(a) && AllScalar(b)
    ensures AllScalar(a + b) && EncodeAll(a + b) == EncodeAll(a) + EncodeAll(b)
  {
    assert forall r | r in a + b :: r in a || r in b;
    if a == [] {
      assert a + b == b;
    } else {
      EncodeAllConcat(a[1..], b);
      assert (a + b)[1..] == a[1..] + b;
    }
  }

  // ---- sanitizeUTF8String ----------------------------------------------------------

  /** The rune the loop appends for one decoded position. */
  function Keep(d: Decoded): int {
    if d.rune == 0 || Malformed(d) then RUNE_ERROR else d.rune
  }

  /** How far the loop advances: one byte over a NUL or a bad byte. */
  function Advance(d: Decoded): nat {
    if d.rune == 0 || Malformed(d) then 1 else d.size
  }

  /** The runes the loop collects from s. */
  function Scrub(s: Bytes): (rs: seq<int>)
    ensures forall r | r in rs :: IsScalar(r) && r != 0
    decreases |s|
  {
    if s == [] then []
    else
      var d := Decode(s);
      assert IsScalar(Keep(d)) by { if !Malformed(d) { EncodeOfDecode(s); } }
      [Keep(d)] + Scrub(s[Advance(d)..])
  }

  function Sanitized(s: Bytes): Bytes {
    EncodeAll(Scrub(s))
  }

  /** What the sanitiser does to a code point that arrived intact. */
  function NulToError(rs: seq<int>): (out: seq<int>)
    ensures |out| == |rs| && forall i | 0 <= i < |rs| :: out[i] == (if rs[i] == 0 then RUNE_ERROR else rs[i])
  {
    if rs == [] then [] else [if rs[0] == 0 then RUNE_ERROR else rs[0]] + NulToError(rs[1..])
  }

  lemma FirstRuneFirst(rs: seq<int>, t: Bytes)
    requires AllScalar(rs) && rs != []
    ensures EncodeAll(rs) + t == EncodeRune(rs[0]) + (EncodeAll(rs[1..]) + t)
  {
  }

  lemma Shift(a: int, b: seq<int>, c: seq<int>)
    ensures [a] + (b + c) == ([a] + b) + c
  {
  }

  lemma {:induction false} ScrubKeepsCodePoints(rs: seq<int>, t: Bytes)
    requires AllScalar(rs)
    ensures Scrub(EncodeAll(rs) + t) == NulToError(rs) + Scrub(t)
  {
    if rs == [] {
      assert EncodeAll(rs) + t == t;
      assert NulToError(rs) + Scrub(t) == Scrub(t);
    } else {
      FirstRuneFirst(rs, t);
      ScrubStep(rs[0], EncodeAll(rs[1..]) + t);
      ScrubKeepsCodePoints(rs[1..], t);
      Shift(if rs[0] == 0 then RUNE_ERROR else rs[0], NulToError(rs[1..]), Scrub(t));
    }
  }

  /** Intact code points pass through in order (NUL becomes U+FFFD) and the rest
      of the input is sanitised independently of them. */
  lemma SanitizeKeepsCodePoints(rs: seq<int>, t: Bytes)
    requires AllScalar(rs)
    ensures AllScalar(NulToError(rs))
    ensures Sanitized(EncodeAll(rs) + t) == EncodeAll(NulToError(rs)) + Sanitized(t)
  {
    ScrubKeepsCodePoints(rs, t);
    EncodeAllConcat(NulToError(rs), Scrub(t));
  }

  lemma ScrubStep(r: int, t: Bytes)
    requires IsScalar(r)
    ensures Scrub(EncodeRune(r) + t) == [if r == 0 then RUNE_ERROR else r] + Scrub(t)
  {
    DecodeOfEncode(r, t);
  }

  /** A byte that starts no well-formed sequence costs exactly one U+FFFD. */
  lemma SanitizeReplacesBadByte(b: Byte, t: Bytes)
    requires Malformed(Decode([b] + t))
    ensures Sanitized([b] + t) == EncodeRune(RUNE_ERROR) + Sanitized(t)
  {
    assert ([b] + t)[1..] == t;
    assert Scrub([b] + t) == [RUNE_ERROR] + Scrub(t);
  }

  lemma {:induction false} EncodeHasNoNul(rs: seq<int>)
    requires AllScalar(rs) && 0 !in rs
    ensures 0 !in EncodeAll(rs)
  {
    if rs == [] {
    } else {
      EncodeHasNoNul(rs[1..]);
      assert rs[0] in rs;
      assert 0 !in EncodeRune(rs[0]);
    }
  }

  /** Postgres TEXT accepts every output: valid UTF-8 and no NUL. */
  lemma SanitizedIsClean(s: Bytes)
    ensures ValidString(Sanitized(s)) && 0 !in Sanitized(s)
  {
    EncodedIsValid(Scrub(s));
    EncodeHasNoNul(Scrub(s));
  }

  /** The fast path agrees with the loop: clean input is a fixed point. */
  lemma {:induction false} CleanIsFixed(s: Bytes)
    requires ValidString(s) && 0 !in s
    ensures Sanitized(s) == s
    decreases |s|
  {
    if s == [] {
    } else {
      var r, rest := ValidStep(s);
      assert forall b | b in rest :: b in s;
      CleanIsFixed(rest);
      ScrubStep(r, rest);
      assert EncodeRune(r)[0] in s;
      assert ([r] + Scrub(rest))[1..] == Scrub(rest);
    }
  }

  lemma SanitizeIdempotent(s: Bytes)
    ensures Sanitized(Sanitized(s)) == Sanitized(s)
  {
    SanitizedIsClean(s);
    CleanIsFixed(Sanitized(s));
  }

  lemma {:induction false} SanitizeGrowth(s: Bytes)
    ensures |Sanitized(s)| <= 3 * |s|
    decreases |s|
  {
    if s == [] {
    } else {
      var d := Decode(s);
      if !Malformed(d) { EncodeOfDecode(s); }
      SanitizeGrowth(s[Advance(d)..]);
    }
  }

  /** The text a sanitised column holds is exactly the text a clean column would. */
  lemma SanitizedEqualIffClean(s: Bytes)
    ensures Sanitized(s) == s <==> ValidString(s) && 0 !in s
  {
    SanitizedIsClean(s);
    if ValidString(s) && 0 !in s { CleanIsFixed(s); }
  }

  /** The loop's state after i input bytes: r collected, the rest still to scrub. */
  ghost predicate Collected(s: Bytes, i: int, r: seq<int>) {
    0 <= i <= |s| && AllScalar(r) && r + Scrub(s[i..]) == Scrub(s)
  }

  /** One turn of the loop moves one rune from the rest of the input to r. */
  lemma LoopStep(s: Bytes, i: nat, r: seq<int>)
    requires Collected(s, i, r) && i < |s|
    ensures var d := Decode(s[i..]); Collected(s, i + Advance(d), r + [Keep(d)])
  {
    var d := Decode(s[i..]);
    if !Malformed(d) { EncodeOfDecode(s[i..]); }
    var rest := s[i..][Advance(d)..];
    assert rest == s[i + Advance(d)..];
    assert r + ([Keep(d)] + Scrub(rest)) == (r + [Keep(d)]) + Scrub(rest);
  }

  /** The slow path: decode, append, advance. */
  method CollectRunes(s: Bytes) returns (r: seq<int>)
    ensures r == Scrub(s)
  {
    r := [];
    var i := 0;
    while i < |s|
      invariant Collected(s, i, r)
    {
      var d := Decode(s[i..]);
      LoopStep(s, i, r);
      if d.rune == 0 || (d.rune == RUNE_ERROR && d.size == 1) {
        r := r + [RUNE_ERROR];
        i := i + 1;
        continue;
      }
      r := r + [d.rune];
      i := i + d.size;
    }
    assert r + Scrub(s[i..]) == r;
  }

  method SanitizeUTF8String(s: Bytes) returns (out: Bytes)
    ensures out == Sanitized(s)
    ensures ValidString(out) && 0 !in out && |out| <= 3 * |s|
  {
    SanitizedIsClean(s);
    SanitizeGrowth(s);
    if ValidString(s) && 0 !in s {
      CleanIsFixed(s);
      return s;
    }
    var r := CollectRunes(s);
    out := EncodeAll(r);
  }
}
