/** Percent encoding of object keys, and the path of an object in a store. */
module Percent {
  import opened Wrappers
  import opened Bytes
  import opened Text

  /** The unreserved characters of section 2.3 of RFC 3986. */
  predicate IsUnreserved(c: char) {
    'A' <= c <= 'Z' || 'a' <= c <= 'z' || '0' <= c <= '9' || c in {'-', '_', '.', '~'}
  }

  lemma UnreservedIs(c: char)
    ensures IsUnreserved(c) <==> c in CAPITAL || c in SMALL || c in DIGITS || c in "-_.~"
  {
    CapitalsAreListed(c);
    SmallLettersAreListed(c);
    DigitsAreListed(c);
  }

  function HexChar(n: int): char
    requires 0 <= n < 16
  {
    if n < 10 then '0' + n as char else 'A' + (n - 10) as char
  }

  function EncodeByte(b: byte): string {
    if b < 128 && IsUnreserved(b as char) then [b as char] else ['%', HexChar(b / 16), HexChar(b % 16)]
  }

  function EncodeComponent(data: seq<byte>): string {
    if data == [] then "" else EncodeByte(data[0]) + EncodeComponent(data[1..])
  }

  /** An unreserved character stands for itself; every other byte becomes its two digits, high one first. */
  lemma EncodedByteIs(b: byte)
    ensures EncodeByte(b) == if b < 128 && IsUnreserved(b as char) then [b as char]
                             else ['%', "0123456789ABCDEF"[b / 16], "0123456789ABCDEF"[b % 16]]
  {
  }

  const SLASH: byte := 0x2F

  function EncodeKeyByte(b: byte): string {
    if b == SLASH then "/" else EncodeByte(b)
  }

  function EncodeKey(data: seq<byte>): string {
    if data == [] then "" else EncodeKeyByte(data[0]) + EncodeKey(data[1..])
  }

  // ---- decoding (section 2.1 of RFC 3986) ------------------------------------------------------

  function HexValue(c: char): Option<int> {
    if '0' <= c <= '9' then Some(c as int - '0' as int)
    else if 'A' <= c <= 'F' then Some(c as int - 'A' as int + 10)
    else if 'a' <= c <= 'f' then Some(c as int - 'a' as int + 10)
    else None
  }

  function HexByte(high: char, low: char): Option<byte> {
    var h :- HexValue(high);
    var l :- HexValue(low);
    Some(16 * h + l)
  }

  function Decode(text: string): Option<seq<byte>>
    decreases |text|
  {
    if text == "" then Some([])
    else if text[0] == '%' then
      if |text| < 3 then None
      else
        var b :- HexByte(text[1], text[2]);
        var rest :- Decode(text[3..]);
        Some([b] + rest)
    else if text[0] as int >= 128 then None
    else
      var rest :- Decode(text[1..]);
      Some([text[0] as int] + rest)
  }

  lemma HexByteReadsBack(b: byte)
    ensures HexByte(HexChar(b / 16), HexChar(b % 16)) == Some(b)
  {
  }

  lemma EncodedByteDecodes(b: byte, rest: string)
    requires Decode(rest).Some?
    ensures Decode(EncodeByte(b) + rest) == Some([b] + Decode(rest).value)
    ensures Decode(EncodeKeyByte(b) + rest) == Some([b] + Decode(rest).value)
  {
    HexByteReadsBack(b);
    var text := EncodeByte(b) + rest;
    assert text[|EncodeByte(b)|..] == rest;
    assert ("/" + rest)[1..] == rest;
  }

  /** For every byte string, decoding gives back what was encoded. */
  lemma {:induction false} KeyRoundTrip(data: seq<byte>)
    ensures Decode(EncodeKey(data)) == Some(data) && Decode(EncodeComponent(data)) == Some(data)
  {
    if data != [] {
      KeyRoundTrip(data[1..]);
      EncodedByteDecodes(data[0], EncodeKey(data[1..]));
      EncodedByteDecodes(data[0], EncodeComponent(data[1..]));
      assert data == [data[0]] + data[1..];
    }
  }

  lemma KeysEqualIff(a: seq<byte>, b: seq<byte>)
    ensures EncodeKey(a) == EncodeKey(b) <==> a == b
  {
    KeyRoundTrip(a);
    KeyRoundTrip(b);
  }

  // ---- the characters of an encoding -----------------------------------------------------------

  predicate IsHexDigit(c: char) {
    '0' <= c <= '9' || 'A' <= c <= 'F'
  }

  /** Unreserved characters, `extra`, and `%` with two upper-case digits; nothing else. */
  predicate IsEncoded(text: string, extra: set<char>)
    decreases |text|
  {
    if text == "" then true
    else if text[0] == '%' then |text| >= 3 && IsHexDigit(text[1]) && IsHexDigit(text[2]) && IsEncoded(text[3..], extra)
    else (IsUnreserved(text[0]) || text[0] in extra) && IsEncoded(text[1..], extra)
  }

  lemma EncodedByteIsEncoded(b: byte, rest: string, extra: set<char>)
    requires IsEncoded(rest, extra)
    ensures IsEncoded(EncodeByte(b) + rest, extra) && ('/' in extra ==> IsEncoded("/" + rest, extra))
  {
    assert (EncodeByte(b) + rest)[|EncodeByte(b)|..] == rest;
    assert ("/" + rest)[1..] == rest;
  }

  lemma {:induction false} EncodingsAreEncoded(data: seq<byte>)
    ensures IsEncoded(EncodeKey(data), {'/'}) && IsEncoded(EncodeComponent(data), {})
  {
    if data != [] {
      EncodingsAreEncoded(data[1..]);
      EncodedByteIsEncoded(data[0], EncodeKey(data[1..]), {'/'});
      EncodedByteIsEncoded(data[0], EncodeComponent(data[1..]), {});
    }
  }

  // ---- slashes stay in place ---------------------------------------------------------------------

  function JoinBytes(parts: seq<seq<byte>>): seq<byte>
    requires parts != []
    decreases |parts|
  {
    if |parts| == 1 then parts[0] else parts[0] + [SLASH] + JoinBytes(parts[1..])
  }

  function EncodeAll(parts: seq<seq<byte>>): seq<string> {
    if parts == [] then [] else [EncodeComponent(parts[0])] + EncodeAll(parts[1..])
  }

  lemma EncodedByteLacksSlash(b: byte)
    ensures Lacks(EncodeByte(b), '/')
  {
  }

  lemma Regrouped(a: string, b: string, c: string)
    ensures a + (b + c) == a + b + c
  {
  }

  lemma EncodeKeyFirst(b: byte, rest: seq<byte>)
    ensures EncodeKey([b] + rest) == EncodeKeyByte(b) + EncodeKey(rest)
  {
    assert ([b] + rest)[1..] == rest;
  }

  lemma {:induction false} EncodeKeyAppends(a: seq<byte>, b: seq<byte>)
    ensures EncodeKey(a + b) == EncodeKey(a) + EncodeKey(b)
    decreases |a|
  {
    if a == [] {
      assert a + b == b;
    } else {
      EncodeKeyAppends(a[1..], b);
      EncodeKeyFirst(a[0], a[1..]);
      EncodeKeyFirst(a[0], a[1..] + b);
      assert a == [a[0]] + a[1..] && a + b == [a[0]] + (a[1..] + b);
      Regrouped(EncodeKeyByte(a[0]), EncodeKey(a[1..]), EncodeKey(b));
    }
  }

  lemma {:induction false} SlashFreeKeyIsComponent(data: seq<byte>)
    ensures Lacks(EncodeComponent(data), '/')
    ensures SLASH !in data ==> EncodeKey(data) == EncodeComponent(data)
  {
    if data != [] {
      EncodedByteLacksSlash(data[0]);
      SlashFreeKeyIsComponent(data[1..]);
    }
  }

  /** The encoding of a key is the encodings of its parts, joined by slashes where the slashes were. */
  lemma {:induction false} SlashesStay(parts: seq<seq<byte>>)
    requires parts != [] && forall i | 0 <= i < |parts| :: SLASH !in parts[i]
    ensures |EncodeAll(parts)| == |parts| && AllLack(EncodeAll(parts), '/')
    ensures EncodeKey(JoinBytes(parts)) == Join(EncodeAll(parts), '/')
    decreases |parts|
  {
    SlashFreeKeyIsComponent(parts[0]);
    if |parts| == 1 {
      assert EncodeAll(parts) == [EncodeComponent(parts[0])];
    } else {
      var rest := parts[1..];
      SlashesStay(rest);
      EncodeKeyAppends(parts[0] + [SLASH], JoinBytes(rest));
      EncodeKeyAppends(parts[0], [SLASH]);
      assert EncodeKey([SLASH]) == "/";
      assert EncodeAll(parts)[1..] == EncodeAll(rest);
    }
  }

  lemma SplittingFindsTheParts(parts: seq<seq<byte>>)
    requires parts != [] && forall i | 0 <= i < |parts| :: SLASH !in parts[i]
    ensures Split(EncodeKey(JoinBytes(parts)), '/') == EncodeAll(parts)
  {
    SlashesStay(parts);
    SplitUndoesJoin(EncodeAll(parts), '/');
  }

  // ---- UTF-8 ---------------------------------------------------------------------------------------

  function Utf8Char(c: char): seq<byte> {
    var n := c as int;
    if n < 0x80 then [n]
    else if n < 0x800 then [0xC0 + n / 0x40, 0x80 + n % 0x40]
    else if n < 0x1_0000 then [0xE0 + n / 0x1000, 0x80 + n / 0x40 % 0x40, 0x80 + n % 0x40]
    else [0xF0 + n / 0x4_0000, 0x80 + n / 0x1000 % 0x40, 0x80 + n / 0x40 % 0x40, 0x80 + n % 0x40]
  }

  /** The number that a follow-up byte carries. */
  function Carried(b: byte): int {
    b - 128
  }

  /** The shortest form that fits, the bits of the character from the first byte to the last (section 3 of
      RFC 3629). */
  lemma Utf8CharIs(c: char)
    ensures var n, bytes := c as int, Utf8Char(c);
      && (|bytes| == 1 <==> n < 128) && (|bytes| <= 2 <==> n < 2048) && (|bytes| <= 3 <==> n < 65536)
      && 1 <= |bytes| <= 4 && (forall i | 1 <= i < |bytes| :: 128 <= bytes[i] < 192)
      && n == (if |bytes| == 1 then bytes[0]
               else if |bytes| == 2 then 64 * (bytes[0] - 192) + Carried(bytes[1])
               else if |bytes| == 3 then 4096 * (bytes[0] - 224) + 64 * Carried(bytes[1]) + Carried(bytes[2])
               else 262144 * (bytes[0] - 240) + 4096 * Carried(bytes[1]) + 64 * Carried(bytes[2]) + Carried(bytes[3]))
  {
    DividedTwice(c as int);
  }

  function Utf8(text: string): seq<byte> {
    if text == "" then [] else Utf8Char(text[0]) + Utf8(text[1..])
  }

  lemma SixtyFourths(m: int, n: int)
    requires m / 0x40 == n / 0x40 && m % 0x40 == n % 0x40
    ensures m == n
  {
  }

  lemma DividedTwice(m: nat)
    ensures m / 0x40 / 0x40 == m / 0x1000 && m / 0x1000 / 0x40 == m / 0x4_0000
  {
  }

  lemma ThreeBytes(m: nat, n: nat)
    requires m / 0x1000 == n / 0x1000 && m / 0x40 % 0x40 == n / 0x40 % 0x40 && m % 0x40 == n % 0x40
    ensures m == n
  {
    DividedTwice(m);
    DividedTwice(n);
    SixtyFourths(m / 0x40, n / 0x40);
    SixtyFourths(m, n);
  }

  lemma FourBytes(m: nat, n: nat)
    requires m / 0x4_0000 == n / 0x4_0000 && m / 0x1000 % 0x40 == n / 0x1000 % 0x40
    requires m / 0x40 % 0x40 == n / 0x40 % 0x40 && m % 0x40 == n % 0x40
    ensures m == n
  {
    DividedTwice(m);
    DividedTwice(n);
    SixtyFourths(m / 0x1000, n / 0x1000);
    ThreeBytes(m, n);
  }

  lemma Utf8CharsDiffer(a: char, b: char)
    requires Utf8Char(a) == Utf8Char(b)
    ensures a == b
  {
    var m, n, bytes, same := a as int, b as int, Utf8Char(a), Utf8Char(b);
    assert |bytes| == |same| && bytes[0] == same[0];
    if |bytes| == 2 {
      assert bytes[1] == same[1];
      SixtyFourths(m, n);
    } else if |bytes| == 3 {
      assert bytes[1] == same[1] && bytes[2] == same[2];
      ThreeBytes(m, n);
    } else if |bytes| == 4 {
      assert bytes[1] == same[1] && bytes[2] == same[2] && bytes[3] == same[3];
      FourBytes(m, n);
    }
  }

  /** The first byte tells how many follow. */
  lemma Utf8FirstByte(a: char, b: char)
    requires Utf8Char(a)[0] == Utf8Char(b)[0]
    ensures |Utf8Char(a)| == |Utf8Char(b)|
  {
  }

  lemma {:induction false} Utf8IsInjective(a: string, b: string)
    requires Utf8(a) == Utf8(b)
    ensures a == b
    decreases |a|
  {
    if a != "" && b != "" {
      assert Utf8(a)[0] == Utf8Char(a[0])[0] && Utf8(b)[0] == Utf8Char(b[0])[0];
      Utf8FirstByte(a[0], b[0]);
      var k := |Utf8Char(a[0])|;
      assert Utf8(a)[..k] == Utf8Char(a[0]) && Utf8(b)[..k] == Utf8Char(b[0]);
      assert Utf8(a)[k..] == Utf8(a[1..]) && Utf8(b)[k..] == Utf8(b[1..]);
      Utf8CharsDiffer(a[0], b[0]);
      Utf8IsInjective(a[1..], b[1..]);
      assert a == [a[0]] + a[1..] && b == [b[0]] + b[1..];
    }
  }

  // ---- the path of an object -------------------------------------------------------------------------

  datatype ObjectStore = ObjectStore(basePath: string, bucket: string)

  function TrimSlashes(text: string): string {
    if text != "" && text[|text| - 1] == '/' then TrimSlashes(text[..|text| - 1]) else text
  }

  function CanonicalObjectPath(store: ObjectStore, key: string): string {
    TrimSlashes(store.basePath) + "/" + EncodeComponent(Utf8(store.bucket)) + "/" + EncodeKey(Utf8(Trim(key)))
  }

  /** Within one store two keys share a path exactly when their trimmed texts are equal. */
  lemma PathsEqualIff(store: ObjectStore, a: string, b: string)
    ensures CanonicalObjectPath(store, a) == CanonicalObjectPath(store, b) <==> Trim(a) == Trim(b)
  {
    var front := TrimSlashes(store.basePath) + "/" + EncodeComponent(Utf8(store.bucket)) + "/";
    var pathA, pathB := CanonicalObjectPath(store, a), CanonicalObjectPath(store, b);
    assert pathA[|front|..] == EncodeKey(Utf8(Trim(a))) && pathB[|front|..] == EncodeKey(Utf8(Trim(b)));
    KeysEqualIff(Utf8(Trim(a)), Utf8(Trim(b)));
    if pathA == pathB {
      Utf8IsInjective(Trim(a), Trim(b));
    }
  }

  /** The path starts with that of the store, without slashes at its end, and the encoded name of the bucket. */
  lemma PathStartsWithStore(base: string, bucket: string, key: string)
    requires base == "" || base[|base| - 1] != '/'
    ensures CanonicalObjectPath(ObjectStore(base, bucket), key)
         == CanonicalObjectPath(ObjectStore(base + "/", bucket), key)
         == base + "/" + EncodeComponent(Utf8(bucket)) + "/" + EncodeKey(Utf8(Trim(key)))
  {
    assert (base + "/")[..|base|] == base;
  }
}
