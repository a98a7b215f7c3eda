/**
 * Identifier and token formats (src/utils/crypto.ts). The random sources
 * (`crypto.randomBytes`, `uuidv4`) are parameters: a function here receives the
 * random bytes or the uuid string and models what the source does with them.
 */
module Crypto {
  type Byte = b: int | 0 <= b < 256

  const HexAlphabet: string := "0123456789abcdef"

  predicate IsLowerHex(c: char) {
    '0' <= c <= '9' || 'a' <= c <= 'f'
  }

  /** A hexadecimal digit of either case. */
  predicate IsHexDigit(c: char) {
    IsLowerHex(c) || 'A' <= c <= 'F'
  }

  predicate NoHyphen(s: string) {
    forall i :: 0 <= i < |s| ==> s[i] != '-'
  }

  // ---------------------------------------------------------------------------
  // Access tokens: `crypto.randomBytes(32).toString('hex')`

  /** A byte's two lower-case digits, high nibble first. */
  function HexPair(b: Byte): (s: string)
    ensures |s| == 2 && IsLowerHex(s[0]) && IsLowerHex(s[1])
  {
    [HexAlphabet[b / 16], HexAlphabet[b % 16]]
  }

  /** Buffer's 'hex' encoding. */
  function HexEncode(bytes: seq<Byte>): (s: string)
    ensures |s| == 2 * |bytes|
    ensures forall i :: 0 <= i < |s| ==> IsLowerHex(s[i])
  {
    if bytes == [] then [] else HexPair(bytes[0]) + HexEncode(bytes[1..])
  }

  /** The value of a lower-case digit; other characters read as 0. */
  function NibbleValue(c: char): (n: nat)
    ensures n < 16
    ensures IsLowerHex(c) ==> HexAlphabet[n] == c
  {
    if '0' <= c <= '9' then c as int - '0' as int
    else if 'a' <= c <= 'f' then c as int - 'a' as int + 10
    else 0
  }

  function PairValue(hi: char, lo: char): Byte {
    NibbleValue(hi) * 16 + NibbleValue(lo)
  }

  /** Reads back a string written by HexEncode. */
  function HexDecode(s: string): (bytes: seq<Byte>)
    ensures |bytes| == |s| / 2
  {
    if |s| < 2 then [] else [PairValue(s[0], s[1])] + HexDecode(s[2..])
  }

  lemma NibbleOfDigit(n: nat)
    requires n < 16
    ensures NibbleValue(HexAlphabet[n]) == n
  {
    var c := HexAlphabet[n];
    assert HexAlphabet[NibbleValue(c)] == c;
    assert forall i, j :: 0 <= i < j < 16 ==> HexAlphabet[i] != HexAlphabet[j];
  }

  /** One byte's two digits read back as that byte. */
  lemma HexPairRoundTrip(b: Byte)
    ensures PairValue(HexPair(b)[0], HexPair(b)[1]) == b
  {
    var hi, lo := b / 16, b % 16;
    NibbleOfDigit(hi);
    NibbleOfDigit(lo);
    assert hi * 16 + lo == b;
  }

  lemma {:induction false} HexRoundTrip(bytes: seq<Byte>)
    ensures HexDecode(HexEncode(bytes)) == bytes
  {
    if bytes != [] {
      var pair, rest := HexPair(bytes[0]), HexEncode(bytes[1..]);
      var s := pair + rest;
      assert s[0] == pair[0] && s[1] == pair[1] && s[2..] == rest;
      HexPairRoundTrip(bytes[0]);
      HexRoundTrip(bytes[1..]);
      assert HexDecode(s) == [bytes[0]] + bytes[1..];
    }
  }

  /** Distinct random byte strings give distinct access tokens. */
  lemma HexEncodeInjective(a: seq<Byte>, b: seq<Byte>)
    requires HexEncode(a) == HexEncode(b)
    ensures a == b
  {
    HexRoundTrip(a);
    HexRoundTrip(b);
  }

  /** generateAccessToken, given the 32 bytes `crypto.randomBytes(32)` returned. */
  function GenerateAccessToken(randomBytes: seq<Byte>): (token: string)
    requires |randomBytes| == 32
    ensures |token| == 64
    ensures forall i :: 0 <= i < |token| ==> IsLowerHex(token[i])
  {
    HexEncode(randomBytes)
  }

  // ---------------------------------------------------------------------------
  // UUID strings

  /** `s.replace(/-/g, '')`. */
  function RemoveHyphens(s: string): (r: string)
    ensures |r| <= |s|
    ensures NoHyphen(r)
  {
    if s == [] then []
    else (if s[0] == '-' then [] else [s[0]]) + RemoveHyphens(s[1..])
  }

  lemma {:induction false} RemoveHyphensAppend(a: string, b: string)
    ensures RemoveHyphens(a + b) == RemoveHyphens(a) + RemoveHyphens(b)
  {
    if a != [] {
      assert (a + b)[0] == a[0];
      assert (a + b)[1..] == a[1..] + b;
      RemoveHyphensAppend(a[1..], b);
    } else {
      assert a + b == b;
    }
  }

  lemma {:induction false} RemoveHyphensOfNoHyphen(s: string)
    requires NoHyphen(s)
    ensures RemoveHyphens(s) == s
  {
    if s != [] {
      RemoveHyphensOfNoHyphen(s[1..]);
    }
  }

  /** generateClientToken and generateProfileUUID: `uuidv4().replace(/-/g, '')`. */
  function GenerateClientToken(uuidV4: string): (token: string)
    ensures NoHyphen(token)
  {
    RemoveHyphens(uuidV4)
  }

  /** How many hyphens FormatUuid inserts before input position i. */
  function HyphensBefore(i: int): int {
    if i < 8 then 0 else if i < 12 then 1 else if i < 16 then 2 else if i < 20 then 3 else 4
  }

  /** formatUUID: a 32-character id becomes 8-4-4-4-12 with hyphens; anything else is returned as is. */
  function FormatUuid(uuid: string): (r: string)
    ensures |uuid| == 32 ==> |r| == 36 && r[8] == '-' && r[13] == '-' && r[18] == '-' && r[23] == '-'
    ensures |uuid| == 32 ==> forall i :: 0 <= i < 32 ==> r[i + HyphensBefore(i)] == uuid[i]
    ensures |uuid| != 32 ==> r == uuid
  {
    if |uuid| == 32 then
      uuid[0..8] + "-" + uuid[8..12] + "-" + uuid[12..16] + "-" + uuid[16..20] + "-" + uuid[20..32]
    else
      uuid
  }

  lemma FormatUuidIdempotent(uuid: string)
    ensures FormatUuid(FormatUuid(uuid)) == FormatUuid(uuid)
  {
  }

  lemma StripHyphenBetween(a: string, b: string)
    requires NoHyphen(b)
    ensures RemoveHyphens(a + "-" + b) == RemoveHyphens(a) + b
  {
    var ah := a + "-";
    assert RemoveHyphens("-") == [];
    RemoveHyphensAppend(a, "-");
    assert RemoveHyphens(ah) == RemoveHyphens(a);
    RemoveHyphensOfNoHyphen(b);
    RemoveHyphensAppend(ah, b);
  }

  /** Stripping the hyphens from a formatted identifier gives the compact identifier back. */
  lemma FormatUuidRoundTrip(uuid: string)
    requires |uuid| == 32 && NoHyphen(uuid)
    ensures RemoveHyphens(FormatUuid(uuid)) == uuid
  {
    var p0, p1, p2, p3, p4 := uuid[0..8], uuid[8..12], uuid[12..16], uuid[16..20], uuid[20..32];
    var s1 := p0 + "-" + p1;
    var s2 := s1 + "-" + p2;
    var s3 := s2 + "-" + p3;
    var s4 := s3 + "-" + p4;
    assert FormatUuid(uuid) == s4;
    RemoveHyphensOfNoHyphen(p0);
    StripHyphenBetween(p0, p1);
    StripHyphenBetween(s1, p2);
    StripHyphenBetween(s2, p3);
    StripHyphenBetween(s3, p4);
    assert uuid == p0 + p1 + p2 + p3 + p4;
  }

  /** The case folding the regular expression's `i` flag applies to ASCII letters. */
  function FoldCase(c: char): char {
    if 'A' <= c <= 'Z' then (c as int + 32) as char else c
  }

  /** The character class `[0-9a-f]` under the `i` flag. */
  predicate InHexClass(c: char) {
    var d := FoldCase(c);
    '0' <= d <= '9' || 'a' <= d <= 'f'
  }

  /** `^[0-9a-f]{n}$` with the `i` flag, matched against the whole of s. */
  function MatchesHexRun(s: string, n: nat): (b: bool)
    ensures b <==> |s| == n && forall i :: 0 <= i < |s| ==> IsHexDigit(s[i])
  {
    if n == 0 then s == []
    else s != [] && InHexClass(s[0]) && MatchesHexRun(s[1..], n - 1)
  }

  /** isValidUUID: the compact (hyphen-free) 32-digit form, digits of either case. */
  function IsValidUuid(uuid: string): (b: bool)
    ensures b <==> |uuid| == 32 && forall i :: 0 <= i < |uuid| ==> IsHexDigit(uuid[i])
  {
    MatchesHexRun(uuid, 32)
  }

  /**
   * A uuidv4 string is the hyphenated form of its 32 hex digits; the client tokens
   * and profile ids minted from it are those digits, which isValidUUID accepts.
   */
  lemma MintedIdIsCompactUuid(digits: string)
    requires IsValidUuid(digits)
    ensures GenerateClientToken(FormatUuid(digits)) == digits
    ensures IsValidUuid(GenerateClientToken(FormatUuid(digits)))
  {
    assert NoHyphen(digits) by {
      forall i | 0 <= i < |digits| ensures digits[i] != '-' {
        assert IsHexDigit(digits[i]);
      }
    }
    FormatUuidRoundTrip(digits);
  }
}
